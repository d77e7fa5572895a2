/** The canonical wheel container (PKWARE APPNOTE sections 4.3.7, 4.3.12 and 4.3.16): its
    writer, and the record checks of the canonicalizer. */
module Wheel {
  import opened Outcomes
  import opened Bytes
  import opened Sorting
  import opened Struct
  import opened Text
  import opened Crc
  import opened ReleaseContract

  const LOCAL_SIGNATURE: bytes := [0x50, 0x4b, 3, 4]
  const CENTRAL_SIGNATURE: bytes := [0x50, 0x4b, 1, 2]
  const END_SIGNATURE: bytes := [0x50, 0x4b, 5, 6]

  /** version, flags, method, time, date; crc, compressed size, size; name and extra sizes */
  const LOCAL_FORMAT: Format := [2, 2, 2, 2, 2, 4, 4, 4, 2, 2]
  /** creator, version, flags, method, time, date; crc, compressed size, size; name, extra
      and comment sizes, volume, internal attributes; external attributes, local offset */
  const CENTRAL_FORMAT: Format := [2, 2, 2, 2, 2, 2, 4, 4, 4, 2, 2, 2, 2, 2, 4, 4]
  /** two disk numbers, two member counts; directory size and offset; comment size */
  const END_FORMAT: Format := [2, 2, 2, 2, 4, 4, 2]

  const ZIP_SYSTEM: nat := 3
  const ZIP_VERSION: nat := 20
  const STORED: nat := 0
  const DEFLATED: nat := 8
  const UTF8_FLAG: nat := 0x800
  const WHEEL_MODE: nat := 0x81a4
  const RECORD_MODE: nat := 0x81b4

  /** The commit time as DOS time and date words. */
  datatype Stamp = Stamp(time: nat, date: nat)

  datatype WheelEntry = WheelEntry(name: bytes, payload: bytes)

  lemma FormatSizes()
    ensures FormatOk(LOCAL_FORMAT) && FormatOk(CENTRAL_FORMAT) && FormatOk(END_FORMAT)
    ensures Size(LOCAL_FORMAT) == 26 && Size(CENTRAL_FORMAT) == 42 && Size(END_FORMAT) == 18
  {
    hide Size;
    LocalSize();
    CentralSize();
    EndSize();
  }

  lemma LocalSize()
    ensures Size(LOCAL_FORMAT) == 26
  {
    hide Size;
    var a: Format, b: Format, c: Format := [2, 2, 2, 2, 2], [4, 4, 4], [2, 2];
    SizeUniform(a, 2); SizeUniform(b, 4); SizeUniform(c, 2);
    SizeConcat(a, b);
    SizeConcat(a + b, c);
    assert LOCAL_FORMAT == a + b + c;
  }

  lemma CentralSize()
    ensures Size(CENTRAL_FORMAT) == 42
  {
    hide Size;
    var a: Format, b: Format, c: Format, d: Format := [2, 2, 2, 2, 2, 2], [4, 4, 4], [2, 2, 2, 2, 2], [4, 4];
    SizeUniform(a, 2); SizeUniform(b, 4); SizeUniform(c, 2); SizeUniform(d, 4);
    SizeConcat(a, b);
    SizeConcat(a + b, c);
    SizeConcat(a + b + c, d);
    assert CENTRAL_FORMAT == a + b + c + d;
  }

  lemma EndSize()
    ensures Size(END_FORMAT) == 18
  {
    hide Size;
    var a: Format, b: Format, c: Format := [2, 2, 2, 2], [4, 4], [2];
    SizeUniform(a, 2); SizeUniform(b, 4); SizeUniform(c, 2);
    SizeConcat(a, b);
    SizeConcat(a + b, c);
    assert END_FORMAT == a + b + c;
  }

  // ---- the format ----

  function Flags(name: bytes): nat {
    if Ascii(name) then 0 else UTF8_FLAG
  }

  /** `.dist-info/RECORD` */
  const RECORD_SUFFIX: bytes :=
    [0x2e, 0x64, 0x69, 0x73, 0x74, 0x2d, 0x69, 0x6e, 0x66, 0x6f, 0x2f, 0x52, 0x45, 0x43, 0x4f, 0x52, 0x44]

  predicate EndsWith(s: bytes, suffix: bytes) {
    |s| >= |suffix| && s[|s| - |suffix|..] == suffix
  }

  function Mode(name: bytes): nat {
    if EndsWith(name, RECORD_SUFFIX) then RECORD_MODE else WHEEL_MODE
  }

  function LocalValues(e: WheelEntry, stamp: Stamp): seq<nat> {
    [ZIP_VERSION, Flags(e.name), STORED, stamp.time, stamp.date, Crc32(e.payload), |e.payload|, |e.payload|, |e.name|, 0]
  }

  function CentralValues(e: WheelEntry, stamp: Stamp, offset: nat): seq<nat> {
    [ZIP_SYSTEM * 256 + ZIP_VERSION, ZIP_VERSION, Flags(e.name), STORED, stamp.time, stamp.date,
     Crc32(e.payload), |e.payload|, |e.payload|, |e.name|, 0, 0, 0, 0, Mode(e.name) * 0x1_0000, offset]
  }

  function EndValues(members: nat, directorySize: nat, directoryOffset: nat): seq<nat> {
    [0, 0, members, members, directorySize, directoryOffset, 0]
  }

  function Packed(f: Format, v: seq<nat>): (s: bytes)
    requires f in {LOCAL_FORMAT, CENTRAL_FORMAT, END_FORMAT} && |v| == |f|
    ensures |s| == Size(f)
  {
    FormatSizes();
    Pack(f, v)
  }

  function LocalImage(e: WheelEntry, stamp: Stamp): bytes {
    LOCAL_SIGNATURE + Packed(LOCAL_FORMAT, LocalValues(e, stamp)) + e.name + e.payload
  }

  function CentralImage(e: WheelEntry, stamp: Stamp, offset: nat): bytes {
    CENTRAL_SIGNATURE + Packed(CENTRAL_FORMAT, CentralValues(e, stamp, offset)) + e.name
  }

  function LocalImages(entries: seq<WheelEntry>, stamp: Stamp): bytes {
    if entries == [] then [] else LocalImage(entries[0], stamp) + LocalImages(entries[1..], stamp)
  }

  /** The directory of entries whose first local record starts at `offset`. */
  function CentralImages(entries: seq<WheelEntry>, stamp: Stamp, offset: nat): bytes {
    if entries == [] then []
    else CentralImage(entries[0], stamp, offset) + CentralImages(entries[1..], stamp, offset + |LocalImage(entries[0], stamp)|)
  }

  function EndImage(members: nat, directorySize: nat, directoryOffset: nat): (s: bytes)
    ensures |s| == 22
  {
    FormatSizes();
    END_SIGNATURE + Packed(END_FORMAT, EndValues(members, directorySize, directoryOffset))
  }

  function WheelImage(entries: seq<WheelEntry>, stamp: Stamp): bytes {
    var locals, centrals := LocalImages(entries, stamp), CentralImages(entries, stamp, 0);
    locals + centrals + EndImage(|entries|, |centrals|, |locals|)
  }

  // ---- the writer ----

  /** Every packed value of entries starting at `offset` fits its field. */
  predicate RecordsFit(entries: seq<WheelEntry>, stamp: Stamp, offset: nat) {
    entries == [] ||
    (Fits(LOCAL_FORMAT, LocalValues(entries[0], stamp)) && Fits(CENTRAL_FORMAT, CentralValues(entries[0], stamp, offset))
     && RecordsFit(entries[1..], stamp, offset + |LocalImage(entries[0], stamp)|))
  }

  predicate WheelFits(entries: seq<WheelEntry>, stamp: Stamp) {
    && RecordsFit(entries, stamp, 0)
    && Fits(END_FORMAT, EndValues(|entries|, |CentralImages(entries, stamp, 0)|, |LocalImages(entries, stamp)|))
  }

  /** `_canonical_wheel_payload` on entries in archive order. */
  method CanonicalWheelPayload(entries: seq<WheelEntry>, stamp: Stamp) returns (r: Result<bytes>)
    ensures r.Ok? <==> WheelFits(entries, stamp)
    ensures r.Ok? ==> r.value == WheelImage(entries, stamp)
  {
    hide Fits, LocalImage, CentralImage, EndImage, LocalValues, CentralValues, Packed;
    var localRecords: bytes, centralRecords: bytes := [], [];
    var index := 0;
    while index < |entries|
      invariant index <= |entries|
      invariant RecordsFit(entries, stamp, 0) <==> RecordsFit(entries[index..], stamp, |localRecords|)
      invariant localRecords + LocalImages(entries[index..], stamp) == LocalImages(entries, stamp)
      invariant centralRecords + CentralImages(entries[index..], stamp, |localRecords|) == CentralImages(entries, stamp, 0)
    {
      var e, rest := entries[index], entries[index..];
      assert rest[0] == e && rest[1..] == entries[index + 1..];
      var offset := |localRecords|;
      var records := EncodeMember(e, stamp, offset);
      if records.None? {
        return Err("argument out of range");
      }
      Regroup(localRecords, records.value.0, LocalImages(rest[1..], stamp));
      localRecords := localRecords + records.value.0;
      Regroup(centralRecords, records.value.1, CentralImages(rest[1..], stamp, |localRecords|));
      centralRecords := centralRecords + records.value.1;
      index := index + 1;
    }
    assert entries[index..] == [];
    assert localRecords + [] == localRecords && centralRecords + [] == centralRecords;
    var directoryOffset := |localRecords|;
    var end := [0, 0, |entries|, |entries|, |centralRecords|, directoryOffset, 0];
    if !Fits(END_FORMAT, end) {
      return Err("argument out of range");
    }
    EndIs(|entries|, |centralRecords|, directoryOffset);
    return Ok(localRecords + centralRecords + (END_SIGNATURE + Packed(END_FORMAT, end)));
  }

  /** One turn of its loop: the member's two records. */
  method EncodeMember(e: WheelEntry, stamp: Stamp, offset: nat) returns (r: Option<(bytes, bytes)>)
    ensures r.Some? <==> Fits(LOCAL_FORMAT, LocalValues(e, stamp)) && Fits(CENTRAL_FORMAT, CentralValues(e, stamp, offset))
    ensures r.Some? ==> r.value == (LocalImage(e, stamp), CentralImage(e, stamp, offset))
  {
    hide Fits, Crc32, Packed, LocalImage, CentralImage, RECORD_SUFFIX;
    var flags := if Ascii(e.name) then 0 else UTF8_FLAG;
    var crc, size := Crc32(e.payload), |e.payload|;
    var local := [ZIP_VERSION, flags, STORED, stamp.time, stamp.date, crc, size, size, |e.name|, 0];
    var mode := if EndsWith(e.name, RECORD_SUFFIX) then RECORD_MODE else WHEEL_MODE;
    var central := [ZIP_SYSTEM * 256 + ZIP_VERSION, ZIP_VERSION, flags, STORED, stamp.time, stamp.date,
                    crc, size, size, |e.name|, 0, 0, 0, 0, mode * 0x1_0000, offset];
    if !Fits(LOCAL_FORMAT, local) || !Fits(CENTRAL_FORMAT, central) {
      return None;
    }
    ImagesAre(e, stamp, offset, local, central);
    return Some((LOCAL_SIGNATURE + Packed(LOCAL_FORMAT, local) + e.name + e.payload,
                 CENTRAL_SIGNATURE + Packed(CENTRAL_FORMAT, central) + e.name));
  }

  lemma ImagesAre(e: WheelEntry, stamp: Stamp, offset: nat, local: seq<nat>, central: seq<nat>)
    requires local == LocalValues(e, stamp) && central == CentralValues(e, stamp, offset)
    ensures LocalImage(e, stamp) == LOCAL_SIGNATURE + Packed(LOCAL_FORMAT, local) + e.name + e.payload
    ensures CentralImage(e, stamp, offset) == CENTRAL_SIGNATURE + Packed(CENTRAL_FORMAT, central) + e.name
  {
    hide Packed, LocalValues, CentralValues;
  }

  lemma EndIs(members: nat, directorySize: nat, directoryOffset: nat)
    ensures EndImage(members, directorySize, directoryOffset)
      == END_SIGNATURE + Packed(END_FORMAT, [0, 0, members, members, directorySize, directoryOffset, 0])
  {
    hide Packed;
  }

  lemma Regroup(a: bytes, b: bytes, c: bytes)
    ensures a + (b + c) == a + b + c
  {
  }

  // ---- the end record ----

  predicate OccursAt(s: bytes, pattern: bytes, i: int) {
    0 <= i <= i + |pattern| <= |s| && s[i..i + |pattern|] == pattern
  }

  /** The greatest index at which `pattern` occurs, or -1. */
  function RFind(s: bytes, pattern: bytes): (at: int)
    requires pattern != []
    ensures -1 <= at && (at >= 0 ==> OccursAt(s, pattern, at))
    ensures forall i :: at < i ==> !OccursAt(s, pattern, i)
    decreases |s|
  {
    if |s| < |pattern| then -1
    else if s[|s| - |pattern|..] == pattern then |s| - |pattern|
    else
      var shorter := s[..|s| - 1];
      var at := RFind(shorter, pattern);
      assert forall i :: OccursAt(s, pattern, i) ==> OccursAt(shorter, pattern, i) by {
        forall i | OccursAt(s, pattern, i) ensures OccursAt(shorter, pattern, i) {
          assert i + |pattern| < |s|;
          assert shorter[i..i + |pattern|] == s[i..i + |pattern|];
        }
      }
      assert at >= 0 ==> s[at..at + |pattern|] == shorter[at..at + |pattern|];
      at
  }

  datatype Directory = Directory(offset: nat, eocd: nat, members: nat)

  function EndFields(s: bytes): (v: seq<nat>)
    requires |s| == 18
    ensures |v| == 7
  {
    hide Size;
    FormatSizes();
    Unpack(END_FORMAT, s)
  }

  /** `_zip_directory_contract` */
  function DirectoryContract(raw: bytes): (r: Result<Directory>)
    ensures r.Ok? ==> r.value.offset <= r.value.eocd == |raw| - 22
  {
    hide EndFields;
    if |raw| < 22 || |raw| > MAX_ARTIFACT_BYTES then Err("wheel container size is invalid")
    else
      var eocd := RFind(raw, END_SIGNATURE);
      if eocd != |raw| - 22 then Err("wheel end record or trailing-data boundary is invalid")
      else
        var v := EndFields(raw[eocd + 4..]);
        if v[0] != 0 || v[1] != 0 || v[2] != v[3] || v[3] in {0, 0xffff} || v[6] != 0
           || v[3] > MAX_ARCHIVE_MEMBERS || v[5] + v[4] != eocd then
          Err("wheel central directory contract is invalid")
        else Ok(Directory(v[5], eocd, v[3]))
  }

  // ---- the central directory ----

  /** One member as its central record describes it, with its safe name. */
  datatype ZipInfo = ZipInfo(
    name: bytes, safe: bytes, flags: nat, compression: nat, crc: nat, compressed: nat, size: nat, localOffset: nat)

  /** The modes a build tool on this system gives to a member. */
  function AllowedModes(system: nat, record: bool): set<nat> {
    if system == 0 then (if record then {0x81b4} else {0x81b6})
    else if system == 3 then (if record then {0x81b4} else {0x8180, 0x81a4, 0x81b4})
    else {}
  }

  /** Text under its encoding flag: UTF-8 with the flag, ASCII without. */
  predicate NameDecodes(name: bytes, flags: nat) {
    if flags != 0 then ValidUtf8(name) else Ascii(name)
  }

  lemma NameIsText(name: bytes, flags: nat)
    requires NameDecodes(name, flags)
    ensures ValidUtf8(name)
  {
    if flags == 0 { AsciiIsUtf8(name); }
  }

  function CentralFields(rest: bytes): (v: seq<nat>)
    requires |rest| >= 46
    ensures |v| == 16
  {
    hide Size;
    FormatSizes();
    Unpack(CENTRAL_FORMAT, rest[4..])
  }

  /** The numeric fields of a central record with `room` bytes from its start on. */
  predicate CentralFieldsOk(v: seq<nat>, room: nat, directoryOffset: nat, stamp: Stamp)
    requires |v| == 16
  {
    && 0 < v[9] <= MAX_NAME_BYTES && 46 + v[9] + v[10] + v[11] <= room && v[10] == 0 && v[11] == 0
    && v[1] == ZIP_VERSION && v[2] in {0, UTF8_FLAG} && v[3] in {DEFLATED, STORED}
    && v[4] == stamp.time && v[5] == stamp.date && v[7] <= MAX_ARTIFACT_BYTES
    && v[8] != 0xffff_ffff && v[7] != 0xffff_ffff && v[12] == 0 && v[13] == 0 && v[15] < directoryOffset
  }

  /** The creator, mode and sizes of a central record for a member of this name. */
  predicate CentralAttributesOk(v: seq<nat>, name: bytes)
    requires |v| == 16
  {
    && v[0] % 256 == ZIP_VERSION && v[2] == Flags(name) && v[14] % 0x1_0000 == 0
    && v[14] / 0x1_0000 in AllowedModes(v[0] / 256, EndsWith(name, RECORD_SUFFIX))
    && (v[3] == STORED ==> v[0] / 256 == ZIP_SYSTEM && v[7] == v[8])
    && (v[3] == DEFLATED && v[8] != 0 ==> v[7] > 0 && v[8] <= MAX_COMPRESSION_RATIO * v[7])
  }

  /** The checks on one central record at the head of `rest`. */
  function CheckCentral(rest: bytes, directoryOffset: nat, stamp: Stamp, policy: NamePolicy): (r: Result<ZipInfo>)
    ensures r.Ok? ==> 46 + |r.value.name| <= |rest| && r.value.name != [] && ValidUtf8(r.value.name)
    ensures r.Ok? ==> SafeReleaseName(r.value.name, policy) == Some(r.value.safe)
  {
    hide CentralFields, ValidUtf8, CentralAttributesOk, SafeReleaseName;
    if |rest| < 46 || rest[..4] != CENTRAL_SIGNATURE then Err("unknown record or count mismatch")
    else
      var v := CentralFields(rest);
      if !CentralFieldsOk(v, |rest|, directoryOffset, stamp) then
        Err("central record is outside the finite build allowlist")
      else
        var name := rest[46..46 + v[9]];
        if !NameDecodes(name, v[2]) then Err("central filename is invalid")
        else
          NameIsText(name, v[2]);
          var safe := SafeReleaseName(name, policy);
          if safe.None? then Err("unsafe archive member")
          else if !CentralAttributesOk(v, name) then Err("central record is outside the finite build allowlist")
          else Ok(ZipInfo(name, safe.value, v[2], v[3], v[6], v[7], v[8], v[15]))
  }

  /** The records of `members` members that fill `rest` exactly. */
  function CentralRecords(rest: bytes, members: nat, directoryOffset: nat, stamp: Stamp, policy: NamePolicy): (r: Option<seq<ZipInfo>>)
    ensures r.Some? ==> |r.value| == members
    ensures r.Some? ==> forall i :: 0 <= i < |r.value| ==>
      ValidUtf8(r.value[i].name) && SafeReleaseName(r.value[i].name, policy) == Some(r.value[i].safe)
    decreases members
  {
    hide CheckCentral, ValidUtf8, SafeReleaseName;
    if members == 0 then (if rest == [] then Some([]) else None)
    else
      var info := CheckCentral(rest, directoryOffset, stamp, policy);
      if info.Err? then None
      else
        var later := CentralRecords(rest[46 + |info.value.name|..], members - 1, directoryOffset, stamp, policy);
        if later.None? then None else Some([info.value] + later.value)
  }

  // ---- the directory as a whole ----

  function InfoSizes(infos: seq<ZipInfo>): nat {
    if infos == [] then 0 else InfoSizes(infos[..|infos| - 1]) + infos[|infos| - 1].size
  }

  predicate BudgetOk(infos: seq<ZipInfo>) {
    && |infos| <= MAX_ARCHIVE_MEMBERS && InfoSizes(infos) <= MAX_TOTAL_BYTES
    && forall i :: 0 <= i < |infos| ==> infos[i].size <= MAX_MEMBER_BYTES
  }

  predicate AliasesUnique(infos: seq<ZipInfo>, policy: NamePolicy) {
    forall i, j :: 0 <= i < j < |infos| ==> Alias(infos[i].safe, policy) != Alias(infos[j].safe, policy)
  }

  /** A file is where another one needs a directory. */
  predicate PrefixCollision(infos: seq<ZipInfo>, policy: NamePolicy) {
    exists i, j :: 0 <= i < |infos| && 0 <= j < |infos| && ProperPrefix(Alias(infos[i].safe, policy), Alias(infos[j].safe, policy))
  }

  predicate ProperPrefix(a: seq<bytes>, b: seq<bytes>) {
    1 <= |a| < |b| && a == b[..|a|]
  }

  predicate NamesSorted(infos: seq<ZipInfo>) {
    forall i, j :: 0 <= i < j < |infos| ==> !LexLess(infos[j].safe, infos[i].safe)
  }

  predicate OneMethod(infos: seq<ZipInfo>, expected: Option<nat>) {
    && infos != [] && (forall i, j :: 0 <= i < |infos| && 0 <= j < |infos| ==> infos[i].compression == infos[j].compression)
    && (expected.Some? ==> forall i :: 0 <= i < |infos| ==> infos[i].compression == expected.value)
  }

  /** What `_preflight_source_zip_records` demands of all records together. */
  predicate DirectoryOk(infos: seq<ZipInfo>, policy: NamePolicy, requireSorted: bool, expected: Option<nat>) {
    && BudgetOk(infos) && AliasesUnique(infos, policy) && OneMethod(infos, expected)
    && (requireSorted ==> NamesSorted(infos)) && !PrefixCollision(infos, policy)
  }

  function Preflight(raw: bytes, d: Directory, stamp: Stamp, policy: NamePolicy, requireSorted: bool, expected: Option<nat>): (r: Option<seq<ZipInfo>>)
    requires d.offset <= d.eocd <= |raw|
  {
    var infos := CentralRecords(raw[d.offset..d.eocd], d.members, d.offset, stamp, policy);
    if infos.None? || !DirectoryOk(infos.value, policy, requireSorted, expected) then None else infos
  }

  /** `_preflight_source_zip_records` */
  method PreflightSourceZipRecords(raw: bytes, d: Directory, stamp: Stamp, policy: NamePolicy, requireSorted: bool, expected: Option<nat>)
    returns (r: Result<seq<ZipInfo>>)
    requires d.offset <= d.eocd <= |raw|
    ensures r.Ok? <==> Preflight(raw, d, stamp, policy, requireSorted, expected).Some?
    ensures r.Ok? ==> Preflight(raw, d, stamp, policy, requireSorted, expected) == Some(r.value)
  {
    hide CentralRecords, OneMethod, PrefixCollision, NamesSorted, AliasesUnique, BudgetOk;
    r := ReadCentralRecords(raw[d.offset..d.eocd], d.members, d.offset, stamp, policy);
    if r.Err? {
      return;
    }
    var problem := CheckDirectory(r.value, policy, requireSorted, expected);
    if problem.Some? {
      return Err(problem.value);
    }
  }

  /** Its checks on all records together. */
  method CheckDirectory(infos: seq<ZipInfo>, policy: NamePolicy, requireSorted: bool, expected: Option<nat>) returns (problem: Option<string>)
    requires AliasesUnique(infos, policy)
    ensures problem.None? <==> OneMethod(infos, expected) && (requireSorted ==> NamesSorted(infos)) && !PrefixCollision(infos, policy)
  {
    hide OneMethod, PrefixCollision, NamesSorted, AliasesUnique, Sort, LexLess;
    var methods := set info | info in infos :: info.compression;
    Methods(infos, methods, expected);
    if |methods| != 1 || (expected.Some? && methods != {expected.value}) {
      return Some("wheel members must use one canonical compression method");
    }
    var names := seq(|infos|, i requires 0 <= i < |infos| => infos[i].safe);
    InOrder(infos, names, policy);
    if requireSorted && names != Sort(names, LexLess) {
      return Some("canonical wheel members are not in sorted order");
    }
    var collides := Collides(infos, policy);
    return if collides then Some("wheel contains a file-prefix collision") else None;
  }

  lemma Methods(infos: seq<ZipInfo>, methods: set<nat>, expected: Option<nat>)
    requires methods == set info | info in infos :: info.compression
    ensures |methods| == 1 && (expected.Some? ==> methods == {expected.value}) <==> OneMethod(infos, expected)
  {
    if infos != [] {
      var first := infos[0].compression;
      assert infos[0] in infos && first in methods;
      if |methods| == 1 {
        assert |methods - {first}| == 0;
        forall i | 0 <= i < |infos| ensures infos[i].compression == first {
          assert infos[i] in infos && infos[i].compression !in methods - {first};
        }
      }
      if forall i :: 0 <= i < |infos| ==> infos[i].compression == first {
        assert methods == {first};
      }
    } else {
      assert methods == {};
    }
  }

  lemma InOrder(infos: seq<ZipInfo>, names: seq<bytes>, policy: NamePolicy)
    requires |names| == |infos| && (forall i :: 0 <= i < |infos| ==> names[i] == infos[i].safe) && AliasesUnique(infos, policy)
    ensures names == Sort(names, LexLess) <==> NamesSorted(infos)
  {
    hide LexLess, Sort, Alias;
    forall a ensures !LexLess(a, a) { LexTrichotomy(a, a); }
    forall a, b ensures LexLess(a, b) || LexLess(b, a) || a == b { LexTrichotomy(a, b); }
    forall a, b | LexLess(a, b) ensures !LexLess(b, a) { LexTrichotomy(a, b); }
    forall a, b, c | LexLess(a, b) && LexLess(b, c) ensures LexLess(a, c) { LexTransitive(a, b, c); }
    assert forall i, j :: 0 <= i < j < |names| ==> names[i] != names[j];
    SortSorted(names, LexLess);
    if NamesSorted(infos) { SortIdempotent(names, LexLess); }
  }

  /** The loop over the proper prefixes of every name. */
  method Collides(infos: seq<ZipInfo>, policy: NamePolicy) returns (found: bool)
    ensures found <==> PrefixCollision(infos, policy)
  {
    hide Alias;
    var aliases := AliasSet(infos, policy);
    for j := 0 to |infos|
      invariant forall i, k :: 0 <= i < |infos| && 0 <= k < j ==> !ProperPrefix(Alias(infos[i].safe, policy), Alias(infos[k].safe, policy))
    {
      var parts := Alias(infos[j].safe, policy);
      for n := 1 to |parts|
        invariant forall i :: 0 <= i < |infos| && |Alias(infos[i].safe, policy)| < n ==> !ProperPrefix(Alias(infos[i].safe, policy), parts)
      {
        if parts[..n] in aliases {
          var i :| 0 <= i < |infos| && Alias(infos[i].safe, policy) == parts[..n];
          assert ProperPrefix(Alias(infos[i].safe, policy), Alias(infos[j].safe, policy));
          return true;
        }
        forall i | 0 <= i < |infos| && |Alias(infos[i].safe, policy)| == n ensures !ProperPrefix(Alias(infos[i].safe, policy), parts) {
          assert Alias(infos[i].safe, policy) in aliases;
        }
      }
    }
    return false;
  }

  function AliasSet(infos: seq<ZipInfo>, policy: NamePolicy): set<seq<bytes>> {
    set i | 0 <= i < |infos| :: Alias(infos[i].safe, policy)
  }

  /** What the loop knows of the records so far: in budget, without aliases, and its two running values. */
  predicate Books(infos: seq<ZipInfo>, aliases: set<seq<bytes>>, total: nat, policy: NamePolicy) {
    BudgetOk(infos) && AliasesUnique(infos, policy) && total == InfoSizes(infos) && aliases == AliasSet(infos, policy)
  }

  /** The record loop, with its running aliases and budget. */
  method ReadCentralRecords(directory: bytes, members: nat, directoryOffset: nat, stamp: Stamp, policy: NamePolicy)
    returns (r: Result<seq<ZipInfo>>)
    ensures var all := CentralRecords(directory, members, directoryOffset, stamp, policy);
      && (r.Ok? <==> all.Some? && BudgetOk(all.value) && AliasesUnique(all.value, policy))
      && (r.Ok? ==> all == Some(r.value))
  {
    hide CheckCentral, CentralRecords, BudgetOk, AliasesUnique, Continued, Books, Alias, WithinBudget;
    var offset := 0;
    var total: nat, count: nat := 0, 0;
    var infos: seq<ZipInfo> := [];
    var aliases: set<seq<bytes>> := {};
    ghost var target := CentralRecords(directory, members, directoryOffset, stamp, policy);
    NoRecords(target, policy);
    assert directory[0..] == directory;
    while count < members
      invariant offset <= |directory| && count == |infos| <= members && Books(infos, aliases, total, policy)
      invariant target == Continued(infos, CentralRecords(directory[offset..], members - count, directoryOffset, stamp, policy))
    {
      var info := CheckCentral(directory[offset..], directoryOffset, stamp, policy);
      RecordTurn(directory, offset, members - count, directoryOffset, stamp, policy, infos);
      if info.Err? {
        NothingContinues(infos);
        return Err(info.reason);
      }
      var next := offset + 46 + |info.value.name|;
      ghost var later := CentralRecords(directory[next..], members - count - 1, directoryOffset, stamp, policy);
      var alias := Alias(info.value.safe, policy);
      if alias in aliases {
        DuplicateAlias(infos, aliases, total, info.value, later, policy);
        return Err("wheel contains a duplicate or aliasing member");
      }
      if !WithinBudget(count + 1, info.value.size, total) {
        OverBudget(infos, aliases, total, info.value, later, policy);
        return Err("wheel exceeds its member budget");
      }
      AddInfo(infos, aliases, total, info.value, policy);
      infos := infos + [info.value];
      aliases := aliases + {alias};
      total := total + info.value.size;
      count := count + 1;
      offset := next;
    }
    LastRecord(directory[offset..], directoryOffset, stamp, policy, infos);
    if offset != |directory| {
      return Err("central directory contains an unknown record or count mismatch");
    }
    BooksHold(infos, aliases, total, policy);
    return Ok(infos);
  }

  lemma BooksHold(infos: seq<ZipInfo>, aliases: set<seq<bytes>>, total: nat, policy: NamePolicy)
    requires Books(infos, aliases, total, policy)
    ensures BudgetOk(infos) && AliasesUnique(infos, policy)
  {
    hide BudgetOk, AliasesUnique;
  }

  lemma NothingContinues(done: seq<ZipInfo>)
    ensures Continued(done, None).None?
  {
  }

  lemma NoRecords(target: Option<seq<ZipInfo>>, policy: NamePolicy)
    ensures target == Continued([], target) && Books([], {}, 0, policy)
  {
    if target.Some? { assert [] + target.value == target.value; }
  }

  lemma LastRecord(rest: bytes, directoryOffset: nat, stamp: Stamp, policy: NamePolicy, done: seq<ZipInfo>)
    ensures Continued(done, CentralRecords(rest, 0, directoryOffset, stamp, policy)) == if rest == [] then Some(done) else None
  {
    assert done + [] == done;
  }

  lemma RecordTurn(directory: bytes, offset: nat, members: nat, directoryOffset: nat, stamp: Stamp, policy: NamePolicy, done: seq<ZipInfo>)
    requires members > 0 && offset <= |directory|
    ensures var info := CheckCentral(directory[offset..], directoryOffset, stamp, policy);
      && (info.Ok? ==> offset + 46 + |info.value.name| <= |directory|)
      && Continued(done, CentralRecords(directory[offset..], members, directoryOffset, stamp, policy))
         == if info.Err? then None
            else Continued(done + [info.value],
                   CentralRecords(directory[offset + 46 + |info.value.name|..], members - 1, directoryOffset, stamp, policy))
  {
    hide CheckCentral, Continued;
    var rest := directory[offset..];
    var info := CheckCentral(rest, directoryOffset, stamp, policy);
    NothingContinues(done);
    if info.Ok? {
      var next := 46 + |info.value.name|;
      DropTwice(directory, offset, next);
      NextRecord(done, info.value, CentralRecords(rest[next..], members - 1, directoryOffset, stamp, policy));
    }
  }

  lemma DropTwice(s: bytes, a: nat, b: nat)
    requires a + b <= |s|
    ensures s[a..][b..] == s[a + b..]
  {
  }

  function Continued(done: seq<ZipInfo>, rest: Option<seq<ZipInfo>>): Option<seq<ZipInfo>> {
    if rest.None? then None else Some(done + rest.value)
  }

  lemma NextRecord(done: seq<ZipInfo>, info: ZipInfo, rest: Option<seq<ZipInfo>>)
    ensures Continued(done, if rest.None? then None else Some([info] + rest.value)) == Continued(done + [info], rest)
  {
    if rest.Some? {
      assert done + ([info] + rest.value) == done + [info] + rest.value;
    }
  }

  lemma {:induction false} SizesGrow(infos: seq<ZipInfo>, n: nat)
    requires n <= |infos|
    ensures InfoSizes(infos[..n]) <= InfoSizes(infos)
    decreases |infos|
  {
    if n < |infos| {
      var last := |infos| - 1;
      SizesGrow(infos[..last], n);
      assert infos[..last][..n] == infos[..n];
    } else {
      assert infos[..n] == infos;
    }
  }

  lemma OverBudget(done: seq<ZipInfo>, aliases: set<seq<bytes>>, total: nat, info: ZipInfo, later: Option<seq<ZipInfo>>, policy: NamePolicy)
    requires Books(done, aliases, total, policy) && !WithinBudget(|done| + 1, info.size, total)
    ensures var all := Continued(done + [info], later); all.Some? ==> !BudgetOk(all.value)
  {
    hide AliasesUnique;
    if later.Some? {
      var n := |done| + 1;
      var all := done + [info] + later.value;
      assert all[..n] == done + [info] && all[..n][..|done|] == done;
      SizesGrow(all, n);
      assert all[|done|] == info;
    }
  }

  lemma DuplicateAlias(done: seq<ZipInfo>, aliases: set<seq<bytes>>, total: nat, info: ZipInfo, later: Option<seq<ZipInfo>>, policy: NamePolicy)
    requires Books(done, aliases, total, policy) && Alias(info.safe, policy) in aliases
    ensures var all := Continued(done + [info], later); all.Some? ==> !AliasesUnique(all.value, policy)
  {
    hide Alias;
    if later.Some? {
      var all := done + [info] + later.value;
      var i :| 0 <= i < |done| && Alias(info.safe, policy) == Alias(done[i].safe, policy);
      assert all[i] == done[i] && all[|done|] == info;
    }
  }

  lemma AddInfo(infos: seq<ZipInfo>, aliases: set<seq<bytes>>, total: nat, info: ZipInfo, policy: NamePolicy)
    requires Books(infos, aliases, total, policy) && WithinBudget(|infos| + 1, info.size, total) && Alias(info.safe, policy) !in aliases
    ensures Books(infos + [info], aliases + {Alias(info.safe, policy)}, total + info.size, policy)
  {
    hide BudgetOk, AliasesUnique, InfoSizes, Alias, WithinBudget, AliasSet;
    AddToBudget(infos, info);
    AddAlias(infos, info, policy);
  }

  lemma AddToBudget(infos: seq<ZipInfo>, info: ZipInfo)
    requires BudgetOk(infos) && WithinBudget(|infos| + 1, info.size, InfoSizes(infos))
    ensures BudgetOk(infos + [info]) && InfoSizes(infos + [info]) == InfoSizes(infos) + info.size
  {
    var all := infos + [info];
    assert all[..|infos|] == infos && all[|infos|] == info;
    assert forall i :: 0 <= i < |infos| ==> all[i] == infos[i];
  }

  lemma AddAlias(infos: seq<ZipInfo>, info: ZipInfo, policy: NamePolicy)
    requires AliasesUnique(infos, policy) && Alias(info.safe, policy) !in AliasSet(infos, policy)
    ensures AliasesUnique(infos + [info], policy)
    ensures AliasSet(infos + [info], policy) == AliasSet(infos, policy) + {Alias(info.safe, policy)}
  {
    hide Alias;
    var all := infos + [info];
    assert forall i :: 0 <= i < |infos| ==> all[i] == infos[i];
    forall i | 0 <= i < |infos|
      ensures Alias(infos[i].safe, policy) != Alias(info.safe, policy)
    {
      assert Alias(infos[i].safe, policy) in AliasSet(infos, policy);
    }
    assert all[|infos|] == info;
  }
}
