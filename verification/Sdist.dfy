/** The sdist canonicalizer: unpack and check build output, normalize it, write the
    canonical container.  Its outputs are its fixed points, and they depend only on the
    normalized contents. */
module Sdist {
  import opened Outcomes
  import opened Bytes
  import opened Sorting
  import opened Text
  import opened Crc
  import opened Gzip
  import opened TarHeader
  import opened Tar
  import opened TarWriter
  import opened TarSource
  import opened SourceContents
  import opened Normalize
  import opened ReleaseContract

  /** What one canonicalization is given besides the archive: the commit time, the name of
      the tar inside the container, the name tables, the generated files, and an inflater
      for compressed containers that yields nothing for an invalid stream. */
  datatype Build = Build(
    timestamp: int,
    tarName: bytes,
    policy: NamePolicy,
    generated: GeneratedFiles,
    inflate: (bytes, nat) -> Option<bytes>)

  const ZIP_EPOCH: int := 315_532_800

  /** `_canonical_zip_timestamp` accepts the time: it fits 32 bits and is not before 1980. */
  predicate TimestampOk(timestamp: int) {
    ZIP_EPOCH <= timestamp < 0x1_0000_0000
  }

  // ---- the outer container ----

  function SourceMaximum(size: nat): nat {
    if size * MAX_COMPRESSION_RATIO < MAX_TAR_CONTAINER_BYTES then size * MAX_COMPRESSION_RATIO
    else MAX_TAR_CONTAINER_BYTES
  }

  /** The fixed part of the header, and the filename up to its terminator. */
  predicate SourceHeaderOk(raw: bytes, tarName: bytes) {
    && 11 <= |raw| <= MAX_ARTIFACT_BYTES
    && raw[..4] == [0x1f, 0x8b, 8, 8] && raw[8] in {0, 2} && raw[9] == 255
    && var terminator := Find(raw, 0, 10);
       && terminator < |raw| && terminator < 266
       && Ascii(raw[10..terminator]) && raw[10..terminator] == tarName
  }

  /** `tar` is the payload of the container `raw`. */
  ghost predicate Unpacks(raw: bytes, tar: bytes, build: Build) {
    && SourceHeaderOk(raw, build.tarName)
    && (if raw[8] == 0 then Encodes(raw[11 + |build.tarName|..], tar, SourceMaximum(|raw|))
        else build.inflate(raw, SourceMaximum(|raw|)) == Some(tar) && |tar| <= SourceMaximum(|raw|))
  }

  /** `_gzip_tar_payload` */
  method GzipTarPayload(raw: bytes, build: Build) returns (r: Result<bytes>)
    ensures forall tar :: r == Ok(tar) <==> Unpacks(raw, tar, build)
  {
    hide Encodes;
    if !SourceHeaderOk(raw, build.tarName) {
      return Err("gzip header or filename is invalid");
    }
    var maximum := |raw| * MAX_COMPRESSION_RATIO;
    if MAX_TAR_CONTAINER_BYTES < maximum { maximum := MAX_TAR_CONTAINER_BYTES; }
    if raw[8] == 0 {
      r := StoredGzipPayload(raw, 11 + |build.tarName|, maximum);
    } else {
      var inflated := build.inflate(raw, maximum);
      if inflated.None? || |inflated.value| > maximum {
        return Err("gzip stream is invalid");
      }
      return Ok(inflated.value);
    }
  }

  // ---- the entries of an accepted tar ----

  predicate Printable(name: bytes) {
    |name| <= 31 && forall i :: 0 <= i < |name| ==> 32 <= name[i] <= 126
  }

  function TrimSlashes(path: bytes): bytes {
    if EndsInSlash(path) then TrimSlashes(path[..|path| - 1]) else path
  }

  /** The member's name as the archive library reports it. */
  function LibraryName(raw: RawMember): bytes {
    if raw.pax || raw.memberType == DIRTYPE then TrimSlashes(raw.path) else raw.path
  }

  const SOURCE_FILE_MODES: set<nat> := {0x180, 0x1a4, 0x1b4, 0x1b6}
  const SOURCE_DIRECTORY_MODES: set<nat> := {0x1c0, 0x1ed, 0x1fd, 0x1ff}

  /** The checks on one member; a good one becomes an entry under its safe name. */
  function EntryOf(raw: RawMember, policy: NamePolicy): (e: Option<TarEntry>)
    ensures e.Some? ==> ValidUtf8(e.value.name)
  {
    var name := LibraryName(raw);
    if !Printable(raw.uname) || !Printable(raw.gname) || !ValidUtf8(name) then None
    else
      var safe := SafeReleaseName(name, policy);
      if safe.None? || !ValidUtf8(safe.value) then None
      else if raw.memberType == DIRTYPE then
        if raw.data != [] || raw.mode !in SOURCE_DIRECTORY_MODES then None else Some(TarEntry(safe.value, None))
      else if raw.mode !in SOURCE_FILE_MODES then None
      else Some(TarEntry(safe.value, Some(raw.data)))
  }

  /** The entries of the members from here on, none of whose aliases is taken. */
  function CollectEntries(raws: seq<RawMember>, taken: set<seq<bytes>>, count: nat, total: nat, policy: NamePolicy): Option<seq<TarEntry>> {
    if raws == [] then Some([])
    else
      var e := EntryOf(raws[0], policy);
      if e.None? || Alias(e.value.name, policy) in taken then None
      else
        var size := |EntryData(e.value)|;
        if !WithinBudget(count + 1, size, total) then None
        else
          var rest := CollectEntries(raws[1..], taken + {Alias(e.value.name, policy)}, count + 1, total + size, policy);
          if rest.None? then None else Some([e.value] + rest.value)
  }

  /** These parts are a proper ancestor of `file`. */
  predicate Above(parts: seq<bytes>, file: bytes) {
    1 <= |parts| < |Split(file, SLASH)| && parts == Split(file, SLASH)[..|parts|]
  }

  predicate IsDirectory(shapes: set<(bytes, bool)>, parts: seq<bytes>) {
    exists d :: d in shapes && d.1 && Split(d.0, SLASH) == parts
  }

  predicate LeadsToFile(shapes: set<(bytes, bool)>, parts: seq<bytes>) {
    exists f :: f in shapes && !f.1 && Above(parts, f.0)
  }

  /** One root, and exactly the directories that lead to the files. */
  ghost predicate TopologyOk(shapes: set<(bytes, bool)>) {
    && shapes != {}
    && (forall s, t :: s in shapes && t in shapes ==> Split(s.0, SLASH)[0] == Split(t.0, SLASH)[0])
    && forall parts :: IsDirectory(shapes, parts) <==> LeadsToFile(shapes, parts)
  }

  /** The entries of a tar that passes the layout check, before normalization. */
  ghost function SourceEntries(tar: bytes, policy: NamePolicy): Option<seq<TarEntry>> {
    if |tar| % CONTAINER != 0 then None
    else
      var raws := ParseSource(tar, None, 0, 0, policy);
      if raws.None? then None
      else
        var entries := CollectEntries(raws.value, {}, 0, 0, policy);
        if entries.None? || !TopologyOk(Shapes(entries.value)) then None else entries
  }

  /** `_source_tar_entries` on a tar that passed the layout check; the archive library's
      reading of it is the parse the check made. */
  method SourceTarEntries(tar: bytes, build: Build) returns (r: Result<seq<TarEntry>>)
    requires |tar| % CONTAINER == 0 && ParseSource(tar, None, 0, 0, build.policy).Some?
    ensures r.Ok? <==> SourceEntries(tar, build.policy).Some?
    ensures r.Ok? ==> r.value == Normalized(SourceEntries(tar, build.policy).value, build.generated)
  {
    hide ParseSource, CollectEntries, TopologyOk, Normalized;
    var raws := ParseSource(tar, None, 0, 0, build.policy).value;
    var entries := CollectMembers(raws, build.policy);
    if entries.Err? {
      return Err(entries.reason);
    }
    var ok := CheckTopology(entries.value);
    if !ok {
      return Err("sdist source directory topology is noncanonical");
    }
    var normalized := NormalizeSdistEntries(entries.value, build.generated);
    return Ok(normalized);
  }

  /** The first parts of all names. */
  function Roots(shapes: set<(bytes, bool)>): (r: set<bytes>)
    ensures forall root :: root in r <==> exists s :: s in shapes && Split(s.0, SLASH)[0] == root
  {
    set s | s in shapes :: Split(s.0, SLASH)[0]
  }

  /** The directories, part by part. */
  function Directories(shapes: set<(bytes, bool)>): (r: set<seq<bytes>>)
    ensures forall parts :: parts in r <==> IsDirectory(shapes, parts)
  {
    set d | d in shapes && d.1 :: Split(d.0, SLASH)
  }

  /** The directories above the files. */
  function Required(shapes: set<(bytes, bool)>): (r: set<seq<bytes>>)
    ensures forall parts :: parts in r <==> LeadsToFile(shapes, parts)
  {
    set f, k | f in shapes && !f.1 && 1 <= k < |Split(f.0, SLASH)| :: Split(f.0, SLASH)[..k]
  }

  /** Its check of roots and directories. */
  method CheckTopology(entries: seq<TarEntry>) returns (ok: bool)
    ensures ok <==> TopologyOk(Shapes(entries))
  {
    hide Split, Shapes, Roots, Directories, Required, IsDirectory, LeadsToFile;
    var shapes := Shapes(entries);
    OneRoot(shapes);
    ok := |Roots(shapes)| == 1 && Directories(shapes) == Required(shapes);
  }

  lemma OneRoot(shapes: set<(bytes, bool)>)
    ensures |Roots(shapes)| == 1 <==>
      shapes != {} && forall s, t :: s in shapes && t in shapes ==> Split(s.0, SLASH)[0] == Split(t.0, SLASH)[0]
  {
    hide Split, Roots;
    var roots := Roots(shapes);
    forall s | s in shapes ensures Split(s.0, SLASH)[0] in roots { }
    if s :| s in shapes {
      var root := Split(s.0, SLASH)[0];
      if |roots| == 1 { OnlyOne(roots, root); }
      if forall s, t :: s in shapes && t in shapes ==> Split(s.0, SLASH)[0] == Split(t.0, SLASH)[0] { assert roots == {root}; }
    } else {
      assert roots == {};
    }
  }

  lemma OnlyOne(s: set<bytes>, x: bytes)
    requires |s| == 1 && x in s
    ensures forall y :: y in s ==> y == x
  {
    assert |s - {x}| == 0;
    forall y | y in s ensures y == x { assert y !in s - {x}; }
  }

  /** The loop over the source members. */
  method CollectMembers(raws: seq<RawMember>, policy: NamePolicy) returns (r: Result<seq<TarEntry>>)
    ensures CollectEntries(raws, {}, 0, 0, policy) == if r.Ok? then Some(r.value) else None
  {
    hide EntryOf, Alias, EntryData, CollectEntries, After, WithinBudget;
    var entries: seq<TarEntry> := [];
    var aliases: set<seq<bytes>> := {};
    var total: nat, index: nat := 0, 0;
    ghost var target := CollectEntries(raws, {}, 0, 0, policy);
    assert raws[0..] == raws;
    NothingDone(target);
    while index < |raws|
      invariant index <= |raws|
      invariant target == After(entries, CollectEntries(raws[index..], aliases, index, total, policy))
    {
      var entry := EntryOf(raws[index], policy);
      CollectRefuses(raws, index, aliases, total, policy, entries);
      if entry.None? {
        return Err("sdist source member is outside the build allowlist");
      }
      var alias := Alias(entry.value.name, policy);
      if alias in aliases {
        return Err("sdist source contains a duplicate member");
      }
      var size := |EntryData(entry.value)|;
      if !WithinBudget(index + 1, size, total) {
        return Err("sdist exceeds its member budget");
      }
      CollectStep(raws, index, aliases, total, policy, entries);
      aliases := aliases + {alias};
      entries := entries + [entry.value];
      total := total + size;
      index := index + 1;
    }
    assert raws[index..] == [];
    AllDone(entries, aliases, index, total, policy);
    return Ok(entries);
  }

  lemma NothingDone(target: Option<seq<TarEntry>>)
    ensures target == After([], target)
  {
    assert target.Some? ==> [] + target.value == target.value;
  }

  lemma AllDone(done: seq<TarEntry>, taken: set<seq<bytes>>, count: nat, total: nat, policy: NamePolicy)
    ensures After(done, CollectEntries([], taken, count, total, policy)) == Some(done)
  {
    assert done + [] == done;
  }

  lemma CollectRefuses(raws: seq<RawMember>, index: nat, taken: set<seq<bytes>>, total: nat, policy: NamePolicy, done: seq<TarEntry>)
    requires index < |raws|
    ensures var e := EntryOf(raws[index], policy);
      e.None? || Alias(e.value.name, policy) in taken || !WithinBudget(index + 1, |EntryData(e.value)|, total)
      ==> After(done, CollectEntries(raws[index..], taken, index, total, policy)).None?
  {
    hide EntryOf, Alias, EntryData, WithinBudget;
  }

  function After(done: seq<TarEntry>, rest: Option<seq<TarEntry>>): Option<seq<TarEntry>> {
    if rest.None? then None else Some(done + rest.value)
  }

  lemma CollectStep(raws: seq<RawMember>, index: nat, taken: set<seq<bytes>>, total: nat, policy: NamePolicy, done: seq<TarEntry>)
    requires index < |raws|
    requires var e := EntryOf(raws[index], policy);
      e.Some? && Alias(e.value.name, policy) !in taken && WithinBudget(index + 1, |EntryData(e.value)|, total)
    ensures var e := EntryOf(raws[index], policy).value;
      After(done, CollectEntries(raws[index..], taken, index, total, policy))
      == After(done + [e], CollectEntries(raws[index + 1..], taken + {Alias(e.name, policy)}, index + 1, total + |EntryData(e)|, policy))
  {
    hide EntryOf;
    var e := EntryOf(raws[index], policy).value;
    assert raws[index..][1..] == raws[index + 1..];
    var rest := CollectEntries(raws[index + 1..], taken + {Alias(e.name, policy)}, index + 1, total + |EntryData(e)|, policy);
    if rest.Some? {
      assert done + ([e] + rest.value) == done + [e] + rest.value;
    }
  }

  // ---- the canonicalizer ----

  /** The container the canonicalizer writes for normalized entries, when it fits. */
  ghost predicate Packed(entries: seq<TarEntry>, c: bytes, build: Build) {
    && TimestampOk(build.timestamp) && TextNames(entries) && TextNames(Sort(entries, ByName))
    && (forall e :: e in entries ==> Writable(e, build.timestamp))
    && var tar := EntriesTar(Sort(entries, ByName), build.timestamp);
       && |tar| <= MAX_TAR_CONTAINER_BYTES
       && c == StoredGzip(tar, build.tarName, build.timestamp)
       && |c| <= MAX_ARTIFACT_BYTES && |tar| <= |c| * MAX_COMPRESSION_RATIO
  }

  /** `c` is the canonical form of `raw`. */
  ghost predicate Canonicalizes(raw: bytes, c: bytes, build: Build) {
    exists tar: bytes :: UnpacksTo(raw, tar, c, build)
  }

  ghost predicate UnpacksTo(raw: bytes, tar: bytes, c: bytes, build: Build) {
    && Unpacks(raw, tar, build) && SourceEntries(tar, build.policy).Some?
    && Packed(Normalized(SourceEntries(tar, build.policy).value, build.generated), c, build)
  }

  /** `canonicalize_sdist_bytes` */
  method CanonicalizeSdistBytes(raw: bytes, build: Build) returns (r: Result<bytes>)
    ensures forall c :: r == Ok(c) <==> Canonicalizes(raw, c, build)
    ensures r.Ok? ==> SameContents(raw, r.value, build)
  {
    hide Unpacks, SourceEntries, Normalized, ParseSource, EntriesTar, StoredGzip, Writable, Sort, ValidUtf8, SameContents;
    if build.timestamp < ZIP_EPOCH || build.timestamp >= 0x1_0000_0000 {
      return Err("canonical archive timestamp is out of range");
    }
    var tarPayload := GzipTarPayload(raw, build);
    if tarPayload.Err? {
      return tarPayload;
    }
    var tar := tarPayload.value;
    var layout := ValidateSourceTarLayout(tar, build.policy);
    if layout.Err? {
      NoEntries(tar, build.policy);
      return Err(layout.reason);
    }
    var entries := SourceTarEntries(tar, build);
    if entries.Err? {
      return Err(entries.reason);
    }
    NormalizedText(tar, build);
    var canonicalTar := CanonicalTarPayload(entries.value, build.timestamp);
    if canonicalTar.Err? {
      return canonicalTar;
    }
    if |canonicalTar.value| > MAX_TAR_CONTAINER_BYTES {
      return Err("canonical sdist tar exceeds its container size limit");
    }
    NameIsAscii(raw, tar, build);
    var canonical := CanonicalStoredGzip(canonicalTar.value, build.tarName, build.timestamp);
    if |canonical.value| > MAX_ARTIFACT_BYTES || |canonicalTar.value| > |canonical.value| * MAX_COMPRESSION_RATIO {
      return Err("canonical sdist exceeds its compressed artifact limits");
    }
    assert UnpacksTo(raw, tar, canonical.value, build);
    CanonicalKeeps(raw, canonical.value, build);
    return canonical;
  }

  lemma NoEntries(tar: bytes, policy: NamePolicy)
    requires !(|tar| % CONTAINER == 0 && ParseSource(tar, None, 0, 0, policy).Some?)
    ensures SourceEntries(tar, policy) == None
  {
  }

  lemma NameIsAscii(raw: bytes, tar: bytes, build: Build)
    requires Unpacks(raw, tar, build)
    ensures Ascii(build.tarName) && 0 !in build.tarName && |build.tarName| <= MAX_COMPONENT_BYTES
  {
    var terminator := Find(raw, 0, 10);
    assert build.tarName == raw[10..terminator];
  }

  lemma {:induction false} CollectedText(raws: seq<RawMember>, taken: set<seq<bytes>>, count: nat, total: nat, policy: NamePolicy)
    requires CollectEntries(raws, taken, count, total, policy).Some?
    ensures TextNames(CollectEntries(raws, taken, count, total, policy).value)
    decreases |raws|
  {
    hide EntryOf;
    if raws != [] {
      var e := EntryOf(raws[0], policy).value;
      CollectedText(raws[1..], taken + {Alias(e.name, policy)}, count + 1, total + |EntryData(e)|, policy);
    }
  }

  lemma NormalizedText(tar: bytes, build: Build)
    requires SourceEntries(tar, build.policy).Some?
    ensures TextNames(Normalized(SourceEntries(tar, build.policy).value, build.generated))
  {
    hide ParseSource, TopologyOk, NormalizeEntry, SourcesPayload, ValidUtf8;
    CollectedText(ParseSource(tar, None, 0, 0, build.policy).value, {}, 0, 0, build.policy);
  }

  // ---- what the source checks establish ----

  ghost predicate AliasesDistinct(entries: seq<TarEntry>, policy: NamePolicy) {
    forall i, j :: 0 <= i < j < |entries| ==> Alias(entries[i].name, policy) != Alias(entries[j].name, policy)
  }

  ghost predicate Collectable(entries: seq<TarEntry>, taken: set<seq<bytes>>, count: nat, total: nat, policy: NamePolicy) {
    && (forall i :: 0 <= i < |entries| ==> SafeEntry(entries[i], policy))
    && (forall i :: 0 <= i < |entries| ==> Alias(entries[i].name, policy) !in taken)
    && AliasesDistinct(entries, policy)
    && (entries != [] ==> count + |entries| <= MAX_ARCHIVE_MEMBERS && total + EntriesSize(entries) <= MAX_TOTAL_BYTES)
  }

  lemma EntryIsSafe(raw: RawMember, policy: NamePolicy)
    requires EntryOf(raw, policy).Some?
    ensures SafeName(EntryOf(raw, policy).value.name, policy)
  {
    hide SafeReleaseName, ValidUtf8, Printable;
    SafeNameIsStable(LibraryName(raw), policy);
  }

  lemma {:induction false} CollectSound(raws: seq<RawMember>, taken: set<seq<bytes>>, count: nat, total: nat, policy: NamePolicy)
    requires CollectEntries(raws, taken, count, total, policy).Some?
    ensures Collectable(CollectEntries(raws, taken, count, total, policy).value, taken, count, total, policy)
    decreases |raws|
  {
    hide EntryOf, SafeName, Alias;
    if raws != [] {
      var e := EntryOf(raws[0], policy).value;
      var alias := Alias(e.name, policy);
      EntryIsSafe(raws[0], policy);
      CollectSound(raws[1..], taken + {alias}, count + 1, total + |EntryData(e)|, policy);
      var rest := CollectEntries(raws[1..], taken + {alias}, count + 1, total + |EntryData(e)|, policy).value;
      CollectCons(e, rest, taken, count, total, policy);
    }
  }

  lemma CollectCons(e: TarEntry, rest: seq<TarEntry>, taken: set<seq<bytes>>, count: nat, total: nat, policy: NamePolicy)
    requires SafeEntry(e, policy) && Alias(e.name, policy) !in taken && WithinBudget(count + 1, |EntryData(e)|, total)
    requires Collectable(rest, taken + {Alias(e.name, policy)}, count + 1, total + |EntryData(e)|, policy)
    ensures Collectable([e] + rest, taken, count, total, policy)
  {
    hide SafeEntry, Alias;
    var entries := [e] + rest;
    forall i | 0 <= i < |rest|
      ensures Alias(rest[i].name, policy) !in taken && Alias(rest[i].name, policy) != Alias(e.name, policy)
    {
      assert Alias(rest[i].name, policy) !in taken + {Alias(e.name, policy)};
    }
    assert forall i :: 0 < i < |entries| ==> entries[i] == rest[i - 1];
    assert entries[1..] == rest;
    assert rest == [] ==> EntriesSize(rest) == 0;
  }

  /** A written safe entry is read back as itself. */
  lemma EntryReadsBack(e: TarEntry, policy: NamePolicy)
    requires SafeEntry(e, policy)
    ensures EntryOf(EntryRaw(e), policy) == Some(e)
  {
    hide SafeReleaseName, ValidUtf8;
    SafeBytes(e.name, policy);
    var path := EntryPath(e);
    if e.payload.None? {
      assert path[..|path| - 1] == e.name;
    }
    assert TrimSlashes(path) == e.name;
  }

  lemma CollectTail(entries: seq<TarEntry>, taken: set<seq<bytes>>, count: nat, total: nat, policy: NamePolicy)
    requires Collectable(entries, taken, count, total, policy) && entries != []
    ensures var e := entries[0];
      && SafeEntry(e, policy) && Alias(e.name, policy) !in taken && WithinBudget(count + 1, |EntryData(e)|, total)
      && Collectable(entries[1..], taken + {Alias(e.name, policy)}, count + 1, total + |EntryData(e)|, policy)
  {
    hide SafeEntry, Alias;
    var e, rest := entries[0], entries[1..];
    EntrySmall(e, policy);
    assert EntriesSize(entries) == |EntryData(e)| + EntriesSize(rest);
    forall i | 0 <= i < |rest|
      ensures SafeEntry(rest[i], policy) && Alias(rest[i].name, policy) !in taken + {Alias(e.name, policy)}
    {
      assert rest[i] == entries[i + 1];
    }
  }

  lemma {:induction false} CollectComplete(entries: seq<TarEntry>, taken: set<seq<bytes>>, count: nat, total: nat, policy: NamePolicy)
    requires Collectable(entries, taken, count, total, policy)
    ensures CollectEntries(EntryRaws(entries), taken, count, total, policy) == Some(entries)
    decreases |entries|
  {
    hide EntryOf, SafeEntry, Alias, Collectable, EntryRaw;
    if entries != [] {
      var e, rest := entries[0], entries[1..];
      CollectTail(entries, taken, count, total, policy);
      EntryReadsBack(e, policy);
      assert EntryRaws(entries)[1..] == EntryRaws(rest);
      CollectComplete(rest, taken + {Alias(e.name, policy)}, count + 1, total + |EntryData(e)|, policy);
      assert [e] + rest == entries;
    }
  }

  lemma EntrySmall(e: TarEntry, policy: NamePolicy)
    requires SafeEntry(e, policy)
    ensures |EntryData(e)| <= MAX_MEMBER_BYTES
  {
  }

  // ---- the stored form of accepted entries ----

  lemma NameOrder()
    ensures StrictOrder(ByName)
  {
    hide LexLess;
    forall a: TarEntry ensures !ByName(a, a) { LexTrichotomy(a.name, a.name); }
    forall a, b, c | ByName(a, b) && ByName(b, c) ensures ByName(a, c) { LexTransitive(a.name, b.name, c.name); }
  }

  lemma DistinctNames(entries: seq<TarEntry>, policy: NamePolicy)
    requires AliasesDistinct(entries, policy)
    ensures Distinct(entries) && Comparable(entries, ByName)
  {
    hide Alias, LexLess;
    forall x, y | x in entries && y in entries
      ensures x == y || ByName(x, y) || ByName(y, x)
    {
      var i :| 0 <= i < |entries| && entries[i] == x;
      var j :| 0 <= j < |entries| && entries[j] == y;
      LexTrichotomy(x.name, y.name);
      assert i < j ==> Alias(x.name, policy) != Alias(y.name, policy);
      assert j < i ==> Alias(y.name, policy) != Alias(x.name, policy);
    }
  }

  lemma SortedAliases(entries: seq<TarEntry>, policy: NamePolicy)
    requires AliasesDistinct(entries, policy)
    ensures Sorted(Sort(entries, ByName), ByName) && AliasesDistinct(Sort(entries, ByName), policy)
  {
    hide Alias, LexLess, Sort;
    NameOrder();
    DistinctNames(entries, policy);
    SortSorted(entries, ByName);
    SortMembers(entries, ByName);
    var s := Sort(entries, ByName);
    forall i, j | 0 <= i < j < |s|
      ensures Alias(s[i].name, policy) != Alias(s[j].name, policy)
    {
      assert ByName(s[i], s[j]) && s[i] in entries && s[j] in entries;
      var a :| 0 <= a < |entries| && entries[a] == s[i];
      var b :| 0 <= b < |entries| && entries[b] == s[j];
      assert a != b;
      assert a < b ==> Alias(entries[a].name, policy) != Alias(entries[b].name, policy);
    }
  }

  /** The contents of a tar are no larger than the tar, and it no larger than its container. */
  lemma {:induction false} SizeInImage(entries: seq<TarEntry>, timestamp: nat)
    requires TextNames(entries)
    ensures EntriesSize(entries) <= |EntriesImage(entries, timestamp)|
  {
    hide CanonicalHeader, ValidUtf8, PaxImage;
    if entries != [] {
      SizeInImage(entries[1..], timestamp);
    }
  }

  lemma {:induction false} BlocksHold(payload: bytes)
    ensures |StoredBlocks(payload)| >= |payload|
    decreases |payload|
  {
    if |payload| > BLOCK_MAX {
      BlocksHold(payload[BLOCK_MAX..]);
    }
  }

  /** The canonical container unpacks to the tar it was made of. */
  lemma ContainerUnpacks(tar: bytes, c: bytes, build: Build)
    requires TimestampOk(build.timestamp) && |tar| < WORD && |tar| <= MAX_TAR_CONTAINER_BYTES
    requires Ascii(build.tarName) && 0 !in build.tarName && |build.tarName| <= MAX_COMPONENT_BYTES
    requires c == StoredGzip(tar, build.tarName, build.timestamp)
    requires |c| <= MAX_ARTIFACT_BYTES && |tar| <= |c| * MAX_COMPRESSION_RATIO
    ensures Unpacks(c, tar, build)
  {
    hide StoredBlocks, Crc32;
    var name := build.tarName;
    var body := StoredBody(tar);
    var head := GzipHeader(name, build.timestamp);
    assert |head| == 11 + |name| && c == head + body;
    assert c[11 + |name|..] == body;
    assert c[10..10 + |name|] == name && c[10 + |name|] == 0;
    assert forall i :: 10 <= i < 10 + |name| ==> c[i] == name[i - 10];
    assert Find(c, 0, 10) == 10 + |name|;
    assert c[..4] == [0x1f, 0x8b, 8, 8];
  }

  /** Normalized entries of accepted input can be stored and read back. */
  lemma NormalizedEntries(entries: seq<TarEntry>, build: Build)
    requires Collectable(entries, {}, 0, 0, build.policy)
    ensures var n := Normalized(entries, build.generated);
      && AliasesDistinct(n, build.policy) && (forall i :: 0 <= i < |n| ==> SafeEntry(n[i], build.policy))
      && |n| <= MAX_ARCHIVE_MEMBERS && Shapes(n) == Shapes(entries)
  {
    hide SafeName, NormalizeEntry, SourcesPayload, Alias;
    var sources, n := SourcesPayload(entries), Normalized(entries, build.generated);
    forall e | e in entries ensures SafeName(e.name, build.policy) {
      var i :| 0 <= i < |entries| && entries[i] == e;
      assert SafeEntry(entries[i], build.policy);
    }
    SourcesSmall(entries, build.policy);
    forall i | 0 <= i < |n| ensures SafeEntry(n[i], build.policy) && n[i].name == entries[i].name {
      assert n[i] == NormalizeEntry(entries[i], sources, build.generated) && SafeEntry(entries[i], build.policy);
    }
    ShapesOfNormalized(entries, sources, build.generated);
  }

  lemma NoRooted(entries: seq<TarEntry>, build: Build)
    requires Collectable(entries, {}, 0, 0, build.policy)
    ensures NoLeadingSlash(entries)
  {
    hide SafeName, Relative, Alias;
    forall e | e in entries ensures !(Relative(e.name) != [] && Relative(e.name)[0] == SLASH) {
      var i :| 0 <= i < |entries| && entries[i] == e;
      assert SafeEntry(entries[i], build.policy);
      RelativeOfSafe(e.name, build.policy);
    }
  }

  lemma SortedEntries(entries: seq<TarEntry>, policy: NamePolicy)
    requires AliasesDistinct(entries, policy) && forall i :: 0 <= i < |entries| ==> SafeEntry(entries[i], policy)
    ensures var s := Sort(entries, ByName);
      && Sorted(s, ByName) && AliasesDistinct(s, policy) && |s| == |entries| && Shapes(s) == Shapes(entries)
      && forall i :: 0 <= i < |s| ==> SafeEntry(s[i], policy)
  {
    hide SafeEntry, Sort, Alias, Sorted, AliasesDistinct, Shapes;
    SortedAliases(entries, policy);
    ShapesOfSorted(entries);
    SortMembers(entries, ByName);
    SortKeeps(entries, ByName);
    var s := Sort(entries, ByName);
    forall i | 0 <= i < |s| ensures SafeEntry(s[i], policy) {
      assert s[i] in entries;
    }
  }

  lemma StoredEntries(entries: seq<TarEntry>, build: Build)
    requires Collectable(entries, {}, 0, 0, build.policy)
    ensures var stored := Sort(Normalized(entries, build.generated), ByName);
      && Sorted(stored, ByName) && AliasesDistinct(stored, build.policy)
      && (forall i :: 0 <= i < |stored| ==> SafeEntry(stored[i], build.policy))
      && |stored| <= MAX_ARCHIVE_MEMBERS
      && Shapes(stored) == Shapes(entries) && NoLeadingSlash(entries)
  {
    hide SafeEntry, Sort, Alias, Sorted, AliasesDistinct, Shapes, Collectable, Normalized, NoLeadingSlash;
    NormalizedEntries(entries, build);
    NoRooted(entries, build);
    SortedEntries(Normalized(entries, build.generated), build.policy);
  }

  /** What a successful run read, and the entries it stored. */
  lemma Stored(raw: bytes, tar: bytes, c: bytes, build: Build) returns (stored: seq<TarEntry>)
    requires UnpacksTo(raw, tar, c, build)
    ensures TextNames(stored) && Sort(stored, ByName) == stored && Normalized(stored, build.generated) == stored
    ensures SafeEntries(stored, build.policy, build.timestamp) && AliasesDistinct(stored, build.policy)
    ensures TopologyOk(Shapes(stored))
    ensures Packed(stored, c, build)
    ensures Sorted(stored, ByName) && ContentsKept(SourceEntries(tar, build.policy).value, stored, build.generated)
  {
    hide Unpacks, TopologyOk, SafeEntry, ParseSource, Sort, SourcesPayload, Normalized, Writable, Alias, StoredGzip, ValidUtf8, EntriesImage,
      ContentsKept, PlainNames;
    var raws := ParseSource(tar, None, 0, 0, build.policy).value;
    var entries := CollectEntries(raws, {}, 0, 0, build.policy).value;
    assert SourceEntries(tar, build.policy) == Some(entries);
    CollectSound(raws, {}, 0, 0, build.policy);
    StoredEntries(entries, build);
    AcceptedPlain(entries, build);
    NormalizedKeeps(entries, build.generated);
    SortedKeeps(entries, Normalized(entries, build.generated), build.generated);
    stored := Sort(Normalized(entries, build.generated), ByName);
    NameOrder();
    SortIdempotent(stored, ByName);
    NormalizedIsFixed(entries, build.generated);
    StoredSize(stored, c, build);
    SafeIsWritable(stored, build);
  }

  lemma AcceptedPlain(entries: seq<TarEntry>, build: Build)
    requires Collectable(entries, {}, 0, 0, build.policy)
    ensures PlainNames(entries)
  {
    hide SafeName, Relative, Alias, BelowRoot;
    forall e | e in entries
      ensures NEWLINE !in e.name && forall rest :: BelowRoot(e.name, rest) ==> !(rest != [] && rest[0] == SLASH)
    {
      var i :| 0 <= i < |entries| && entries[i] == e;
      assert SafeEntry(entries[i], build.policy);
      SafeBytes(e.name, build.policy);
      RelativeOfSafe(e.name, build.policy);
      forall rest | BelowRoot(e.name, rest) ensures rest == Relative(e.name) { RelativeMeans(e.name, rest); }
    }
  }

  lemma SafeIsWritable(stored: seq<TarEntry>, build: Build)
    requires TimestampOk(build.timestamp) && SafeEntries(stored, build.policy, build.timestamp)
    ensures forall e :: e in stored ==> Writable(e, build.timestamp)
  {
    hide Writable, SafeEntry, Alias, ValidUtf8;
    forall e | e in stored
      ensures Writable(e, build.timestamp)
    {
      var i :| 0 <= i < |stored| && stored[i] == e;
      SafeEntryMember(e, build.policy, build.timestamp);
    }
  }

  lemma StoredSize(stored: seq<TarEntry>, c: bytes, build: Build)
    requires TextNames(stored) && TimestampOk(build.timestamp)
    requires |EntriesTar(stored, build.timestamp)| <= MAX_TAR_CONTAINER_BYTES
    requires c == StoredGzip(EntriesTar(stored, build.timestamp), build.tarName, build.timestamp)
    requires |c| <= MAX_ARTIFACT_BYTES
    ensures EntriesSize(stored) <= MAX_TOTAL_BYTES
  {
    hide StoredBlocks, EntriesImage;
    var tar := EntriesTar(stored, build.timestamp);
    SizeInImage(stored, build.timestamp);
    BlocksHold(tar);
    assert |c| == |GzipHeader(build.tarName, build.timestamp)| + |StoredBody(tar)|;
  }

  // ---- the theorems ----

  /** What is written unpacks again, to the entries that were stored. */
  lemma StoredReadsBack(raw: bytes, input: bytes, c: bytes, build: Build) returns (stored: seq<TarEntry>, tar: bytes)
    requires UnpacksTo(raw, input, c, build)
    ensures Unpacks(c, tar, build) && SourceEntries(tar, build.policy) == Some(stored)
    ensures Normalized(stored, build.generated) == stored && Packed(stored, c, build)
    ensures Sorted(stored, ByName) && ContentsKept(SourceEntries(input, build.policy).value, stored, build.generated)
  {
    hide Unpacks, TopologyOk, SafeEntry, ParseSource, Sort, Normalized, Writable, Alias, StoredGzip, ValidUtf8, EntriesImage, ContentsKept;
    NameIsAscii(raw, input, build);
    stored := Stored(raw, input, c, build);
    tar := EntriesTar(stored, build.timestamp);
    CanonicalIsSource(stored, build.policy, build.timestamp);
    CollectComplete(stored, {}, 0, 0, build.policy);
    ContainerUnpacks(tar, c, build);
  }

  /** Canonical output is a fixed point: what the canonicalizer returns, it accepts, and
      returns unchanged. */
  lemma CanonicalIsFixedPoint(raw: bytes, c: bytes, build: Build)
    requires Canonicalizes(raw, c, build)
    ensures Canonicalizes(c, c, build)
  {
    hide Unpacks, SourceEntries, Normalized, Packed, ContentsKept;
    var input: bytes :| UnpacksTo(raw, input, c, build);
    var stored, tar := StoredReadsBack(raw, input, c, build);
    assert UnpacksTo(c, tar, c, build);
  }

  /** The two archives hold the same names and directories; a file other than the manifest and the
      generated text keeps its bytes, generated text keeps its lines under LF, and the manifest lists
      the files there are.  The second archive is in name order. */
  ghost predicate SameContents(raw: bytes, c: bytes, build: Build) {
    exists tar: bytes, tar': bytes :: Unpacks(raw, tar, build) && Unpacks(c, tar', build) && EntriesKept(tar, tar', build)
  }

  ghost predicate EntriesKept(tar: bytes, tar': bytes, build: Build) {
    var before, after := SourceEntries(tar, build.policy), SourceEntries(tar', build.policy);
    && before.Some? && after.Some? && InNameOrder(after.value)
    && ContentsKept(before.value, after.value, build.generated)
  }

  /** Canonicalization keeps the contents of an archive. */
  lemma CanonicalKeeps(raw: bytes, c: bytes, build: Build)
    requires Canonicalizes(raw, c, build)
    ensures SameContents(raw, c, build)
  {
    hide Unpacks, SourceEntries, Normalized, Packed, ContentsKept, Sorted, InNameOrder;
    var input: bytes :| UnpacksTo(raw, input, c, build);
    var stored, tar := StoredReadsBack(raw, input, c, build);
    SortedIsInOrder(stored);
    assert EntriesKept(input, tar, build);
  }

  /** Two accepted archives with the same normalized entries, in whatever order, container
      and compression, have the same canonical form. */
  lemma CanonicalFormIsByContents(raw: bytes, raw': bytes, tar: bytes, tar': bytes, c: bytes, c': bytes, build: Build, build': Build)
    requires UnpacksTo(raw, tar, c, build) && UnpacksTo(raw', tar', c', build')
    requires build.tarName == build'.tarName && build.timestamp == build'.timestamp
    requires forall e ::
      e in Normalized(SourceEntries(tar, build.policy).value, build.generated)
      <==> e in Normalized(SourceEntries(tar', build'.policy).value, build'.generated)
    ensures c == c'
  {
    hide Unpacks, TopologyOk, SafeEntry, ParseSource, Writable, Alias, StoredGzip, ValidUtf8, EntriesImage, Sort, NormalizeEntry, SourcesPayload;
    NameOrder();
    var a := Normalized(SourceEntries(tar, build.policy).value, build.generated);
    var b := Normalized(SourceEntries(tar', build'.policy).value, build'.generated);
    NormalizedDistinct(tar, build);
    NormalizedDistinct(tar', build');
    SortOrderFree(a, b, ByName);
  }

  lemma NormalizedDistinct(tar: bytes, build: Build)
    requires SourceEntries(tar, build.policy).Some?
    ensures var a := Normalized(SourceEntries(tar, build.policy).value, build.generated);
      Distinct(a) && Comparable(a, ByName)
  {
    hide TopologyOk, SafeEntry, ParseSource, Alias, NormalizeEntry, SourcesPayload;
    var entries := SourceEntries(tar, build.policy).value;
    CollectSound(ParseSource(tar, None, 0, 0, build.policy).value, {}, 0, 0, build.policy);
    var a := Normalized(entries, build.generated);
    assert forall i :: 0 <= i < |a| ==> a[i].name == entries[i].name;
    assert AliasesDistinct(a, build.policy);
    DistinctNames(a, build.policy);
  }
}
