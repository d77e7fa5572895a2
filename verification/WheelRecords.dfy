/** Local records of a wheel, and the geometry of what the canonical writer produces: the
    local records tile the space before the directory, the central records tile the
    directory, and each points at its own local record. */
module WheelRecords {
  import opened Outcomes
  import opened Bytes
  import opened Struct
  import opened Text
  import opened Crc
  import opened ReleaseContract
  import opened Wheel

  /** The uncompressed data of a deflate stream that has exactly the given size. */
  type Inflater = (bytes, nat) -> Option<bytes>

  function LocalFields(rest: bytes): (v: seq<nat>)
    requires |rest| >= 30
    ensures |v| == 10
  {
    hide Size;
    FormatSizes();
    Unpack(LOCAL_FORMAT, rest[4..])
  }

  /** The local record repeats what the central record says. */
  predicate LocalAgrees(v: seq<nat>, info: ZipInfo, stamp: Stamp)
    requires |v| == 10
  {
    && v[0] == ZIP_VERSION && v[1] == info.flags && v[2] == info.compression && v[3] == stamp.time && v[4] == stamp.date
    && v[5] == info.crc && v[6] == info.compressed && v[7] == info.size && v[9] == 0
  }

  /** A checked local record: the member's contents, and the extent of the record. */
  datatype LocalRecord = LocalRecord(payload: bytes, extent: nat)

  /** The checks on one local record, and the checksummed contents behind it. */
  function CheckLocal(rest: bytes, offset: nat, info: ZipInfo, stamp: Stamp, inflate: Inflater): (r: Result<LocalRecord>)
    ensures r.Ok? ==> 30 <= r.value.extent <= |rest|
  {
    hide LocalFields;
    if info.localOffset != offset || |rest| < 30 then Err("local records contain a prefix, gap, or overlap")
    else
      var v := LocalFields(rest);
      var start := 30 + v[8] + v[9];
      if rest[..4] != LOCAL_SIGNATURE || start + v[6] > |rest| || !LocalAgrees(v, info, stamp)
         || rest[30..30 + v[8]] != info.name then Err("local record is noncanonical")
      else
        var data := rest[start..start + v[6]];
        var payload := if info.compression == DEFLATED then inflate(data, info.size)
                       else if v[6] == v[7] then Some(data) else None;
        if payload.None? || |payload.value| != info.size || Crc32(payload.value) != info.crc then
          Err("wheel member is invalid")
        else Ok(LocalRecord(payload.value, start + v[6]))
  }

  /** The contents of the members whose local records tile `rest`. */
  function LocalPayloads(rest: bytes, offset: nat, infos: seq<ZipInfo>, stamp: Stamp, inflate: Inflater): (r: Option<seq<bytes>>)
    ensures r.Some? ==> |r.value| == |infos|
    decreases |infos|
  {
    hide CheckLocal;
    if infos == [] then (if rest == [] then Some([]) else None)
    else
      var record := CheckLocal(rest, offset, infos[0], stamp, inflate);
      if record.Err? then None
      else
        var extent := record.value.extent;
        var later := LocalPayloads(rest[extent..], offset + extent, infos[1..], stamp, inflate);
        if later.None? then None else Some([record.value.payload] + later.value)
  }

  /** `_validate_zip_local_records`, with the member reads that follow it. */
  method ValidateZipLocalRecords(raw: bytes, infos: seq<ZipInfo>, directoryOffset: nat, stamp: Stamp, inflate: Inflater)
    returns (r: Result<seq<bytes>>)
    requires directoryOffset <= |raw|
    ensures var all := LocalPayloads(raw[..directoryOffset], 0, infos, stamp, inflate);
      (r.Ok? <==> all.Some?) && (r.Ok? ==> all == Some(r.value))
  {
    hide CheckLocal, LocalPayloads;
    var expectedOffset: nat, index: nat := 0, 0;
    var payloads: seq<bytes> := [];
    var locals := raw[..directoryOffset];
    ghost var target := LocalPayloads(locals, 0, infos, stamp, inflate);
    assert locals[0..] == locals && infos[0..] == infos;
    assert target == Joined([], target) by { if target.Some? { assert [] + target.value == target.value; } }
    while index < |infos|
      invariant index <= |infos| && expectedOffset <= directoryOffset
      invariant target == Joined(payloads, LocalPayloads(locals[expectedOffset..], expectedOffset, infos[index..], stamp, inflate))
    {
      var rest := locals[expectedOffset..];
      var record := CheckLocal(rest, expectedOffset, infos[index], stamp, inflate);
      LocalTurn(rest, expectedOffset, infos[index..], stamp, inflate, payloads);
      if record.Err? {
        return Err(record.reason);
      }
      assert infos[index..][1..] == infos[index + 1..];
      assert rest[record.value.extent..] == locals[expectedOffset + record.value.extent..];
      payloads := payloads + [record.value.payload];
      expectedOffset := expectedOffset + record.value.extent;
      index := index + 1;
    }
    assert infos[index..] == [];
    LocalsDone(locals[expectedOffset..], expectedOffset, stamp, inflate, payloads);
    if expectedOffset != directoryOffset {
      return Err("local records contain a prefix, gap, or overlap");
    }
    return Ok(payloads);
  }

  function Joined(done: seq<bytes>, rest: Option<seq<bytes>>): Option<seq<bytes>> {
    if rest.None? then None else Some(done + rest.value)
  }

  lemma LocalTurn(rest: bytes, offset: nat, infos: seq<ZipInfo>, stamp: Stamp, inflate: Inflater, done: seq<bytes>)
    requires infos != []
    ensures var record := CheckLocal(rest, offset, infos[0], stamp, inflate);
      Joined(done, LocalPayloads(rest, offset, infos, stamp, inflate))
      == if record.Err? then None
         else Joined(done + [record.value.payload],
                LocalPayloads(rest[record.value.extent..], offset + record.value.extent, infos[1..], stamp, inflate))
  {
    hide CheckLocal;
    var record := CheckLocal(rest, offset, infos[0], stamp, inflate);
    if record.Ok? {
      var later := LocalPayloads(rest[record.value.extent..], offset + record.value.extent, infos[1..], stamp, inflate);
      if later.Some? {
        assert done + ([record.value.payload] + later.value) == done + [record.value.payload] + later.value;
      }
    }
  }

  lemma LocalsDone(rest: bytes, offset: nat, stamp: Stamp, inflate: Inflater, done: seq<bytes>)
    ensures Joined(done, LocalPayloads(rest, offset, [], stamp, inflate)) == if rest == [] then Some(done) else None
  {
    assert done + [] == done;
  }

  // ---- geometry of the canonical container ----

  /** What the directory says about a written entry at this offset. */
  function InfoOf(e: WheelEntry, offset: nat): ZipInfo {
    ZipInfo(e.name, e.name, Flags(e.name), STORED, Crc32(e.payload), |e.payload|, |e.payload|, offset)
  }

  function InfosOf(entries: seq<WheelEntry>, stamp: Stamp, offset: nat): (infos: seq<ZipInfo>)
    ensures |infos| == |entries|
  {
    if entries == [] then []
    else [InfoOf(entries[0], offset)] + InfosOf(entries[1..], stamp, offset + |LocalImage(entries[0], stamp)|)
  }

  function PayloadsOf(entries: seq<WheelEntry>): (payloads: seq<bytes>)
    ensures |payloads| == |entries|
  {
    if entries == [] then [] else [entries[0].payload] + PayloadsOf(entries[1..])
  }

  lemma CentralImageReads(e: WheelEntry, stamp: Stamp, offset: nat, rest: bytes)
    requires Fits(CENTRAL_FORMAT, CentralValues(e, stamp, offset))
    ensures var s := CentralImage(e, stamp, offset) + rest;
      && |s| == 46 + |e.name| + |rest| && s[..4] == CENTRAL_SIGNATURE
      && CentralFields(s) == CentralValues(e, stamp, offset)
      && s[46..46 + |e.name|] == e.name && s[46 + |e.name|..] == rest
  {
    hide Size, Unpack, Pack, Fits, CentralValues, Crc32;
    FormatSizes();
    CentralLength(e, stamp, offset);
    var v := CentralValues(e, stamp, offset);
    var packed := Packed(CENTRAL_FORMAT, v);
    var s := CentralImage(e, stamp, offset) + rest;
    assert s == CENTRAL_SIGNATURE + packed + e.name + rest;
    assert s[4..] == packed + (e.name + rest);
    UnpackOfConcat(CENTRAL_FORMAT, v, e.name + rest);
  }

  lemma CentralLength(e: WheelEntry, stamp: Stamp, offset: nat)
    ensures |CentralValues(e, stamp, offset)| == 16 && |LocalValues(e, stamp)| == 10
  {
  }

  lemma LocalImageReads(e: WheelEntry, stamp: Stamp, rest: bytes)
    requires Fits(LOCAL_FORMAT, LocalValues(e, stamp))
    ensures var s := LocalImage(e, stamp) + rest;
      && |s| == 30 + |e.name| + |e.payload| + |rest| && s[..4] == LOCAL_SIGNATURE
      && LocalFields(s) == LocalValues(e, stamp)
      && s[30..30 + |e.name|] == e.name && s[30 + |e.name|..30 + |e.name| + |e.payload|] == e.payload
      && s[30 + |e.name| + |e.payload|..] == rest
  {
    hide Size, Unpack, Pack, Fits, LocalValues, Crc32;
    FormatSizes();
    CentralLength(e, stamp, 0);
    var v := LocalValues(e, stamp);
    var packed := Packed(LOCAL_FORMAT, v);
    var s := LocalImage(e, stamp) + rest;
    assert s == LOCAL_SIGNATURE + packed + e.name + e.payload + rest;
    assert s[4..] == packed + (e.name + e.payload + rest);
    UnpackOfConcat(LOCAL_FORMAT, v, e.name + e.payload + rest);
  }

  /** One written central record passes the check, and describes its entry. */
  lemma CentralChecksOut(e: WheelEntry, stamp: Stamp, offset: nat, rest: bytes, directoryOffset: nat, policy: NamePolicy)
    requires Fits(CENTRAL_FORMAT, CentralValues(e, stamp, offset)) && SafeName(e.name, policy)
    requires |e.payload| <= MAX_ARTIFACT_BYTES && offset < directoryOffset
    ensures CheckCentral(CentralImage(e, stamp, offset) + rest, directoryOffset, stamp, policy) == Ok(InfoOf(e, offset))
  {
    hide CentralFields, Fits, CentralImage, CentralFieldsOk, CentralAttributesOk, NameDecodes, Crc32, SafeReleaseName, ValidUtf8;
    CentralImageReads(e, stamp, offset, rest);
    CentralLength(e, stamp, offset);
    WrittenFieldsOk(e, stamp, offset, |CentralImage(e, stamp, offset) + rest|, directoryOffset, policy);
  }

  /** The values of a written central record are in the allowlist. */
  lemma WrittenFieldsOk(e: WheelEntry, stamp: Stamp, offset: nat, room: nat, directoryOffset: nat, policy: NamePolicy)
    requires SafeName(e.name, policy) && |e.payload| <= MAX_ARTIFACT_BYTES && offset < directoryOffset && 46 + |e.name| <= room
    ensures var v := CentralValues(e, stamp, offset);
      |v| == 16 && CentralFieldsOk(v, room, directoryOffset, stamp) && CentralAttributesOk(v, e.name) && NameDecodes(e.name, v[2])
  {
    hide SafeName, ValidUtf8, Crc32, EndsWith;
    SafeBytes(e.name, policy);
    assert ValidUtf8(e.name) by { SafeNameIsText(e.name, policy); }
  }

  lemma SafeNameIsText(name: bytes, policy: NamePolicy)
    requires SafeName(name, policy)
    ensures ValidUtf8(name) && SafeReleaseName(name, policy) == Some(name)
  {
    hide ValidUtf8, SafeReleaseName;
  }

  lemma CentralTail(e: WheelEntry, stamp: Stamp, offset: nat, rest: bytes)
    requires Fits(CENTRAL_FORMAT, CentralValues(e, stamp, offset))
    ensures 46 + |e.name| <= |CentralImage(e, stamp, offset) + rest|
    ensures (CentralImage(e, stamp, offset) + rest)[46 + |InfoOf(e, offset).name|..] == rest
  {
    hide CentralFields, Fits, CentralImage;
    CentralImageReads(e, stamp, offset, rest);
  }

  lemma LocalLength(e: WheelEntry, stamp: Stamp)
    ensures |LocalImage(e, stamp)| == 30 + |e.name| + |e.payload|
  {
    hide Size;
    FormatSizes();
  }

  lemma CentralImageLength(e: WheelEntry, stamp: Stamp, offset: nat)
    ensures |CentralImage(e, stamp, offset)| == 46 + |e.name|
  {
    hide Size;
    FormatSizes();
  }

  /** The directory of written entries passes every record check, and describes the entries:
      each central record points at its own local record. */
  lemma {:induction false} CentralReads(entries: seq<WheelEntry>, stamp: Stamp, offset: nat, directoryOffset: nat, policy: NamePolicy)
    requires RecordsFit(entries, stamp, offset) && forall i :: 0 <= i < |entries| ==> SafeName(entries[i].name, policy)
    requires offset + |LocalImages(entries, stamp)| <= directoryOffset <= MAX_ARTIFACT_BYTES
    ensures CentralRecords(CentralImages(entries, stamp, offset), |entries|, directoryOffset, stamp, policy)
      == Some(InfosOf(entries, stamp, offset))
    decreases |entries|
  {
    hide CheckCentral, CentralFields, CentralImage, LocalImage, Fits, CentralValues, LocalValues, SafeName, ValidUtf8, SafeReleaseName, InfoOf;
    if entries != [] {
      var e := entries[0];
      var next := offset + |LocalImage(e, stamp)|;
      var rest := CentralImages(entries[1..], stamp, next);
      LocalLength(e, stamp);
      CentralChecksOut(e, stamp, offset, rest, directoryOffset, policy);
      CentralTail(e, stamp, offset, rest);
      CentralReads(entries[1..], stamp, next, directoryOffset, policy);
    }
  }

  lemma LocalChecksOut(e: WheelEntry, stamp: Stamp, offset: nat, rest: bytes, inflate: Inflater)
    requires Fits(LOCAL_FORMAT, LocalValues(e, stamp))
    ensures CheckLocal(LocalImage(e, stamp) + rest, offset, InfoOf(e, offset), stamp, inflate)
      == Ok(LocalRecord(e.payload, |LocalImage(e, stamp)|))
  {
    hide LocalFields, Fits, LocalImage, Crc32;
    LocalImageReads(e, stamp, rest);
  }

  /** The local records of written entries tile their space and give back the contents. */
  lemma {:induction false} LocalReads(entries: seq<WheelEntry>, stamp: Stamp, offset: nat, inflate: Inflater)
    requires RecordsFit(entries, stamp, offset)
    ensures LocalPayloads(LocalImages(entries, stamp), offset, InfosOf(entries, stamp, offset), stamp, inflate)
      == Some(PayloadsOf(entries))
    decreases |entries|
  {
    hide CheckLocal, CentralImage, LocalImage, Fits, CentralValues, LocalValues, InfoOf;
    if entries != [] {
      var e := entries[0];
      var next := offset + |LocalImage(e, stamp)|;
      var rest := LocalImages(entries[1..], stamp);
      LocalChecksOut(e, stamp, offset, rest, inflate);
      assert (LocalImage(e, stamp) + rest)[|LocalImage(e, stamp)|..] == rest;
      LocalReads(entries[1..], stamp, next, inflate);
      assert InfosOf(entries, stamp, offset)[1..] == InfosOf(entries[1..], stamp, next);
    }
  }

  // ---- the end record ----

  /** The signature of the end record occurs nowhere else inside it. */
  predicate EndRecordClean(end: bytes) {
    forall i :: 0 < i <= 18 ==> !OccursAt(end, END_SIGNATURE, i)
  }

  function EndOf(entries: seq<WheelEntry>, stamp: Stamp): (end: bytes)
    ensures |end| == 22
  {
    EndImage(|entries|, |CentralImages(entries, stamp, 0)|, |LocalImages(entries, stamp)|)
  }

  lemma EndFound(body: bytes, end: bytes)
    requires |end| == 22 && end[..4] == END_SIGNATURE
    ensures RFind(body + end, END_SIGNATURE) == |body| <==> EndRecordClean(end)
  {
    var s := body + end;
    assert OccursAt(s, END_SIGNATURE, |body|) by { assert s[|body|..|body| + 4] == end[..4]; }
    forall i | 0 < i <= 18
      ensures OccursAt(s, END_SIGNATURE, |body| + i) <==> OccursAt(end, END_SIGNATURE, i)
    {
      assert s[|body| + i..|body| + i + 4] == end[i..i + 4];
    }
    if RFind(s, END_SIGNATURE) == |body| {
      forall i | 0 < i <= 18 ensures !OccursAt(end, END_SIGNATURE, i) {
        assert !OccursAt(s, END_SIGNATURE, |body| + i);
      }
    }
    if EndRecordClean(end) {
      var at := RFind(s, END_SIGNATURE);
      assert at >= |body|;
      assert at > |body| ==> OccursAt(end, END_SIGNATURE, at - |body|);
    }
  }

  lemma EndReads(body: bytes, members: nat, directorySize: nat, directoryOffset: nat)
    requires Fits(END_FORMAT, EndValues(members, directorySize, directoryOffset))
    ensures var s := body + EndImage(members, directorySize, directoryOffset);
      && |s[|body| + 4..]| == 18
      && EndFields(s[|body| + 4..]) == EndValues(members, directorySize, directoryOffset)
  {
    hide Size, Unpack, Pack, Fits;
    FormatSizes();
    var v := EndValues(members, directorySize, directoryOffset);
    var s := body + EndImage(members, directorySize, directoryOffset);
    assert s[|body| + 4..] == Packed(END_FORMAT, v) + [];
    UnpackOfConcat(END_FORMAT, v, []);
  }

  /** The container of written entries has a readable end record exactly when it has between
      one and the allowed number of members, fits the size limit, and the end signature does
      not recur inside the end record; then the directory is where the writer put it. */
  lemma DirectoryReads(entries: seq<WheelEntry>, stamp: Stamp)
    requires WheelFits(entries, stamp)
    ensures var d := DirectoryContract(WheelImage(entries, stamp));
      var locals, centrals := |LocalImages(entries, stamp)|, |CentralImages(entries, stamp, 0)|;
      && (d.Ok? <==> 1 <= |entries| <= MAX_ARCHIVE_MEMBERS && |WheelImage(entries, stamp)| <= MAX_ARTIFACT_BYTES
                     && EndRecordClean(EndOf(entries, stamp)))
      && (d.Ok? ==> d.value == Directory(locals, locals + centrals, |entries|))
  {
    hide EndFields, Fits, LocalImages, CentralImages, RecordsFit, RFind, Packed;
    var locals, centrals := LocalImages(entries, stamp), CentralImages(entries, stamp, 0);
    var end := EndImage(|entries|, |centrals|, |locals|);
    assert WheelImage(entries, stamp) == (locals + centrals) + end;
    assert end[..4] == END_SIGNATURE;
    EndFound(locals + centrals, end);
    EndReads(locals + centrals, |entries|, |centrals|, |locals|);
  }
}
