/** Which containers the canonicalizer accepts as wheels, and with which contents: said of their
    bytes, without the readers. */
module WheelExact {
  import opened Outcomes
  import opened Bytes
  import opened Struct
  import opened Text
  import opened Crc
  import opened ReleaseContract
  import opened Wheel
  import opened WheelRecords
  import opened WheelCanonical

  // ---- the end record ----

  /** Everything before `eocd` and the end record of a directory that reaches from `offset` to it. */
  ghost predicate Ended(raw: bytes, d: Directory) {
    && |raw| <= MAX_ARTIFACT_BYTES && 1 <= d.members <= MAX_ARCHIVE_MEMBERS && d.offset <= d.eocd == |raw| - 22
    && Fits(END_FORMAT, [0, 0, d.members, d.members, d.eocd - d.offset, d.offset, 0])
    && raw[d.eocd..] == END_SIGNATURE + Packed(END_FORMAT, [0, 0, d.members, d.members, d.eocd - d.offset, d.offset, 0])
    && forall i :: d.eocd < i ==> !OccursAt(raw, END_SIGNATURE, i)
  }

  lemma EndRead(raw: bytes, eocd: nat, v: seq<nat>)
    requires |raw| >= 22 && eocd == |raw| - 22 && OccursAt(raw, END_SIGNATURE, eocd) && |v| == 7
    ensures EndFields(raw[eocd + 4..]) == v <==> Fits(END_FORMAT, v) && raw[eocd..] == END_SIGNATURE + Packed(END_FORMAT, v)
  {
    hide Size, Unpack, Pack, Fits;
    FormatSizes();
    var s := raw[eocd + 4..];
    assert raw[eocd..] == raw[eocd..eocd + 4] + s;
    assert s[..18] == s;
    if Fits(END_FORMAT, v) {
      UnpackExact(END_FORMAT, s, v);
      if raw[eocd..] == END_SIGNATURE + Packed(END_FORMAT, v) { assert raw[eocd..][4..] == Packed(END_FORMAT, v); }
    }
    UnpackedFits(s, v);
  }

  lemma UnpackedFits(s: bytes, v: seq<nat>)
    requires |s| == 18
    ensures EndFields(s) == v ==> Fits(END_FORMAT, v)
  {
    hide Size, Unpack, Fits;
    FormatSizes();
  }

  /** The directory is found exactly where the end record says. */
  lemma DirectoryExactly(raw: bytes, d: Directory)
    ensures DirectoryContract(raw) == Ok(d) <==> Ended(raw, d)
  {
    hide EndFields, Fits, RFind, Packed, OccursAt;
    var v := [0, 0, d.members, d.members, d.eocd - d.offset, d.offset, 0];
    if DirectoryContract(raw) == Ok(d) {
      assert EndFields(raw[d.eocd + 4..]) == v;
      EndRead(raw, d.eocd, v);
    }
    if Ended(raw, d) {
      EndOccurs(raw, d, v);
      EndRead(raw, d.eocd, v);
    }
  }

  lemma EndOccurs(raw: bytes, d: Directory, v: seq<nat>)
    requires d.eocd + 22 == |raw| && Fits(END_FORMAT, v) && raw[d.eocd..] == END_SIGNATURE + Packed(END_FORMAT, v)
    ensures OccursAt(raw, END_SIGNATURE, d.eocd)
    ensures (forall i :: d.eocd < i ==> !OccursAt(raw, END_SIGNATURE, i)) ==> RFind(raw, END_SIGNATURE) == d.eocd
  {
    hide Fits, Packed, RFind;
    assert raw[d.eocd..d.eocd + 4] == raw[d.eocd..][..4] == END_SIGNATURE;
  }

  // ---- central records ----

  function CentralFieldsOf(info: ZipInfo, made: nat, external: nat, stamp: Stamp): (v: seq<nat>)
    ensures |v| == 16
  {
    [made, 20, info.flags, info.compression, stamp.time, stamp.date, info.crc, info.compressed, info.size,
     |info.name|, 0, 0, 0, 0, external, info.localOffset]
  }

  /** A central record of this member, and the rest. */
  ghost predicate CentralSpelled(rest: bytes, info: ZipInfo, made: nat, external: nat, tail: bytes, stamp: Stamp) {
    var v := CentralFieldsOf(info, made, external, stamp);
    Fits(CENTRAL_FORMAT, v) && rest == CENTRAL_SIGNATURE + Packed(CENTRAL_FORMAT, v) + info.name + tail
  }

  /** A mode that build tools on this system give to a member. */
  predicate ToolMode(system: nat, record: bool, mode: nat) {
    || (system == 0 && mode == if record then 0x81b4 else 0x81b6)
    || (system == 3 && (mode == 0x81b4 || (!record && (mode == 0x8180 || mode == 0x81a4))))
  }

  /** What is allowed of a member: its name, method, sizes, creator and mode. */
  ghost predicate MemberAllowed(info: ZipInfo, made: nat, external: nat, directoryOffset: nat, policy: NamePolicy) {
    && 1 <= |info.name| <= 2_048 && ValidUtf8(info.name) && SafeReleaseName(info.name, policy) == Some(info.safe)
    && info.flags == (if Ascii(info.name) then 0 else 0x800) && info.compression in {0, 8}
    && info.compressed <= MAX_ARTIFACT_BYTES && info.size != 0xffff_ffff && info.localOffset < directoryOffset
    && (exists system: nat, mode: nat ::
          made == 256 * system + 20 && external == 0x1_0000 * mode
          && ToolMode(system, exists stem :: info.name == stem + RECORD_SUFFIX, mode)
          && (info.compression == 0 ==> system == 3))
    && (info.compression == 0 ==> info.compressed == info.size)
    && (info.compression == 8 && info.size != 0 ==> 0 < info.compressed && info.size <= MAX_COMPRESSION_RATIO * info.compressed)
  }

  lemma CentralRead(rest: bytes, v: seq<nat>)
    requires |rest| >= 46 && |v| == 16
    ensures CentralFields(rest) == v <==> Fits(CENTRAL_FORMAT, v) && rest[4..46] == Packed(CENTRAL_FORMAT, v)
  {
    hide Size, Unpack, Pack, Fits;
    FormatSizes();
    var s := rest[4..];
    assert s[..42] == rest[4..46];
    if Fits(CENTRAL_FORMAT, v) { UnpackExact(CENTRAL_FORMAT, s, v); }
    assert Fits(CENTRAL_FORMAT, Unpack(CENTRAL_FORMAT, s));
  }

  lemma Suffixed(name: bytes)
    ensures EndsWith(name, RECORD_SUFFIX) <==> exists stem :: name == stem + RECORD_SUFFIX
  {
    hide RECORD_SUFFIX;
    var n := |name| - |RECORD_SUFFIX|;
    if EndsWith(name, RECORD_SUFFIX) { assert name == name[..n] + RECORD_SUFFIX; }
    if stem :| name == stem + RECORD_SUFFIX { assert |stem| == n && name[n..] == RECORD_SUFFIX; }
  }

  lemma AttributesExactly(v: seq<nat>, name: bytes)
    requires |v| == 16
    ensures CentralAttributesOk(v, name) <==>
      && v[2] == (if Ascii(name) then 0 else 0x800)
      && (exists system: nat, mode: nat ::
            v[0] == 256 * system + 20 && v[14] == 0x1_0000 * mode
            && ToolMode(system, exists stem :: name == stem + RECORD_SUFFIX, mode) && (v[3] == 0 ==> system == 3))
      && (v[3] == 0 ==> v[7] == v[8])
      && (v[3] == 8 && v[8] != 0 ==> 0 < v[7] && v[8] <= MAX_COMPRESSION_RATIO * v[7])
  {
    hide RECORD_SUFFIX, EndsWith, Ascii;
    Suffixed(name);
    var system, mode := v[0] / 256, v[14] / 0x1_0000;
    if CentralAttributesOk(v, name) { assert v[0] == 256 * system + 20 && v[14] == 0x1_0000 * mode; }
    forall s: nat, m: nat | v[0] == 256 * s + 20 && v[14] == 0x1_0000 * m ensures s == system && m == mode { }
  }

  /** One central record is accepted exactly when it spells an allowed member. */
  lemma CentralExactly(rest: bytes, info: ZipInfo, directoryOffset: nat, stamp: Stamp, policy: NamePolicy)
    ensures CheckCentral(rest, directoryOffset, stamp, policy) == Ok(info) <==>
      exists made: nat, external: nat, tail ::
        CentralSpelled(rest, info, made, external, tail, stamp) && MemberAllowed(info, made, external, directoryOffset, policy)
  {
    hide CentralFields, Fits, ValidUtf8, SafeReleaseName, CentralAttributesOk, RECORD_SUFFIX, MemberAllowed, Packed, NameDecodes, CentralSpelled;
    if CheckCentral(rest, directoryOffset, stamp, policy) == Ok(info) {
      var v := CentralFields(rest);
      var tail := rest[46 + v[9]..];
      CentralIsSpelled(rest, info, tail, directoryOffset, stamp, policy);
    }
    forall made: nat, external: nat, tail |
      CentralSpelled(rest, info, made, external, tail, stamp) && MemberAllowed(info, made, external, directoryOffset, policy)
      ensures CheckCentral(rest, directoryOffset, stamp, policy) == Ok(info)
    {
      SpelledIsCentral(rest, info, made, external, tail, directoryOffset, stamp, policy);
    }
  }

  /** What an accepted record is made of. */
  lemma CentralParts(rest: bytes, info: ZipInfo, directoryOffset: nat, stamp: Stamp, policy: NamePolicy)
    requires CheckCentral(rest, directoryOffset, stamp, policy) == Ok(info)
    ensures 46 + |info.name| <= |rest| && rest[..4] == CENTRAL_SIGNATURE && rest[46..46 + |info.name|] == info.name
    ensures var v := CentralFields(rest);
      && v == CentralFieldsOf(info, v[0], v[14], stamp) && CentralFieldsOk(v, |rest|, directoryOffset, stamp)
      && CentralAttributesOk(v, info.name) && NameDecodes(info.name, info.flags)
    ensures ValidUtf8(info.name) && SafeReleaseName(info.name, policy) == Some(info.safe)
  {
    hide CentralFields, ValidUtf8, SafeReleaseName, CentralAttributesOk, NameDecodes;
  }

  lemma CentralConcat(rest: bytes, n: nat)
    requires 46 <= n <= |rest|
    ensures rest == rest[..4] + rest[4..46] + rest[46..n] + rest[n..]
  {
  }

  lemma CentralIsSpelled(rest: bytes, info: ZipInfo, tail: bytes, directoryOffset: nat, stamp: Stamp, policy: NamePolicy)
    requires CheckCentral(rest, directoryOffset, stamp, policy) == Ok(info) && tail == rest[46 + |info.name|..]
    ensures var v := CentralFields(rest);
      CentralSpelled(rest, info, v[0], v[14], tail, stamp) && MemberAllowed(info, v[0], v[14], directoryOffset, policy)
  {
    hide CheckCentral, CentralFields, Fits, ValidUtf8, SafeReleaseName, CentralAttributesOk, NameDecodes, Packed, MemberAllowed, CentralFieldsOk, CentralFieldsOf;
    var v := CentralFields(rest);
    CentralParts(rest, info, directoryOffset, stamp, policy);
    CentralRead(rest, v);
    CentralConcat(rest, 46 + |info.name|);
    FieldsAllow(info, v[0], v[14], |rest|, directoryOffset, stamp, policy);
  }

  lemma FieldsAllow(info: ZipInfo, made: nat, external: nat, room: nat, directoryOffset: nat, stamp: Stamp, policy: NamePolicy)
    requires ValidUtf8(info.name) && SafeReleaseName(info.name, policy) == Some(info.safe)
    requires var v := CentralFieldsOf(info, made, external, stamp);
      CentralFieldsOk(v, room, directoryOffset, stamp) && CentralAttributesOk(v, info.name)
    ensures MemberAllowed(info, made, external, directoryOffset, policy)
  {
    hide ValidUtf8, SafeReleaseName, CentralAttributesOk, RECORD_SUFFIX, ToolMode, Ascii;
    AttributesExactly(CentralFieldsOf(info, made, external, stamp), info.name);
  }

  lemma AllowedFields(info: ZipInfo, made: nat, external: nat, room: nat, directoryOffset: nat, stamp: Stamp, policy: NamePolicy)
    requires MemberAllowed(info, made, external, directoryOffset, policy) && 46 + |info.name| <= room
    ensures var v := CentralFieldsOf(info, made, external, stamp);
      CentralFieldsOk(v, room, directoryOffset, stamp) && CentralAttributesOk(v, info.name) && NameDecodes(info.name, v[2])
  {
    hide ValidUtf8, SafeReleaseName, CentralAttributesOk, RECORD_SUFFIX, ToolMode, Ascii;
    AttributesExactly(CentralFieldsOf(info, made, external, stamp), info.name);
  }

  lemma CentralSlices(v: seq<nat>, name: bytes, tail: bytes)
    requires |v| == 16
    ensures var rest, n := CENTRAL_SIGNATURE + Packed(CENTRAL_FORMAT, v) + name + tail, 46 + |name|;
      |rest| >= n && rest[..4] == CENTRAL_SIGNATURE && rest[4..46] == Packed(CENTRAL_FORMAT, v) && rest[46..n] == name
  {
    hide Size, Pack;
    FormatSizes();
    var packed := Packed(CENTRAL_FORMAT, v);
    assert |packed| == 42;
    var rest := CENTRAL_SIGNATURE + packed + name + tail;
    assert rest == CENTRAL_SIGNATURE + (packed + (name + tail));
  }

  lemma PartsAreCentral(rest: bytes, info: ZipInfo, made: nat, external: nat, directoryOffset: nat, stamp: Stamp, policy: NamePolicy)
    requires 46 + |info.name| <= |rest| && rest[..4] == CENTRAL_SIGNATURE && rest[46..46 + |info.name|] == info.name
    requires CentralFields(rest) == CentralFieldsOf(info, made, external, stamp)
    requires var v := CentralFields(rest);
      CentralFieldsOk(v, |rest|, directoryOffset, stamp) && CentralAttributesOk(v, info.name) && NameDecodes(info.name, info.flags)
    requires ValidUtf8(info.name) && SafeReleaseName(info.name, policy) == Some(info.safe)
    ensures CheckCentral(rest, directoryOffset, stamp, policy) == Ok(info)
  {
    hide CentralFields, ValidUtf8, SafeReleaseName, CentralAttributesOk, NameDecodes, CentralFieldsOk;
  }

  lemma SpelledIsCentral(rest: bytes, info: ZipInfo, made: nat, external: nat, tail: bytes, directoryOffset: nat, stamp: Stamp, policy: NamePolicy)
    requires CentralSpelled(rest, info, made, external, tail, stamp) && MemberAllowed(info, made, external, directoryOffset, policy)
    ensures CheckCentral(rest, directoryOffset, stamp, policy) == Ok(info)
  {
    hide CheckCentral, CentralFields, Fits, ValidUtf8, SafeReleaseName, CentralAttributesOk, RECORD_SUFFIX, Packed, CentralFieldsOk, NameDecodes,
      CentralFieldsOf, ToolMode, Ascii;
    var v := CentralFieldsOf(info, made, external, stamp);
    CentralSlices(v, info.name, tail);
    CentralRead(rest, v);
    AllowedFields(info, made, external, |rest|, directoryOffset, stamp, policy);
    FlagsAt(info, made, external, stamp);
    PartsAreCentral(rest, info, made, external, directoryOffset, stamp, policy);
  }

  lemma FlagsAt(info: ZipInfo, made: nat, external: nat, stamp: Stamp)
    ensures CentralFieldsOf(info, made, external, stamp)[2] == info.flags
  {
  }

  /** The directory is the central records of these members, one after another. */
  ghost predicate Central(rest: bytes, infos: seq<ZipInfo>, directoryOffset: nat, stamp: Stamp, policy: NamePolicy)
    decreases |infos|
  {
    if infos == [] then rest == []
    else
      exists made: nat, external: nat, tail ::
        CentralSpelled(rest, infos[0], made, external, tail, stamp) && MemberAllowed(infos[0], made, external, directoryOffset, policy)
        && Central(tail, infos[1..], directoryOffset, stamp, policy)
  }

  lemma TailIs(rest: bytes, info: ZipInfo, made: nat, external: nat, tail: bytes, stamp: Stamp)
    requires CentralSpelled(rest, info, made, external, tail, stamp)
    ensures 46 + |info.name| <= |rest| && rest[46 + |info.name|..] == tail
  {
    hide Size, Fits;
    FormatSizes();
  }

  lemma {:induction false} CentralRecordsExactly(rest: bytes, infos: seq<ZipInfo>, directoryOffset: nat, stamp: Stamp, policy: NamePolicy)
    ensures CentralRecords(rest, |infos|, directoryOffset, stamp, policy) == Some(infos) <==> Central(rest, infos, directoryOffset, stamp, policy)
    decreases |infos|
  {
    hide CheckCentral, CentralSpelled, MemberAllowed, ValidUtf8, SafeReleaseName;
    if infos != [] {
      CentralExactly(rest, infos[0], directoryOffset, stamp, policy);
      if CheckCentral(rest, directoryOffset, stamp, policy) == Ok(infos[0]) {
        var tail := rest[46 + |infos[0].name|..];
        forall made: nat, external: nat, t | CentralSpelled(rest, infos[0], made, external, t, stamp) ensures t == tail {
          TailIs(rest, infos[0], made, external, t, stamp);
        }
        CentralRecordsExactly(tail, infos[1..], directoryOffset, stamp, policy);
        assert [infos[0]] + infos[1..] == infos;
      }
    }
  }

  // ---- local records ----

  function LocalFieldsOf(info: ZipInfo, stamp: Stamp): (v: seq<nat>)
    ensures |v| == 10
  {
    [20, info.flags, info.compression, stamp.time, stamp.date, info.crc, info.compressed, info.size, |info.name|, 0]
  }

  /** A local record of this member at this offset with its stored data, and the rest. */
  ghost predicate LocalSpelled(rest: bytes, offset: nat, info: ZipInfo, data: bytes, tail: bytes, stamp: Stamp) {
    && info.localOffset == offset && |data| == info.compressed && Fits(LOCAL_FORMAT, LocalFieldsOf(info, stamp))
    && rest == LOCAL_SIGNATURE + Packed(LOCAL_FORMAT, LocalFieldsOf(info, stamp)) + info.name + data + tail
  }

  /** The data holds this payload: as it is, or deflated; of the announced size and checksum. */
  ghost predicate DataHolds(data: bytes, payload: bytes, info: ZipInfo, inflate: Inflater) {
    && |payload| == info.size && Crc32(payload) == info.crc
    && (if info.compression == 8 then inflate(data, info.size) == Some(payload) else payload == data)
  }

  lemma LocalRead(rest: bytes, v: seq<nat>)
    requires |rest| >= 30 && |v| == 10
    ensures LocalFields(rest) == v <==> Fits(LOCAL_FORMAT, v) && rest[4..30] == Packed(LOCAL_FORMAT, v)
  {
    hide Size, Unpack, Pack, Fits;
    FormatSizes();
    var s := rest[4..];
    assert s[..26] == rest[4..30];
    if Fits(LOCAL_FORMAT, v) { UnpackExact(LOCAL_FORMAT, s, v); }
    assert Fits(LOCAL_FORMAT, Unpack(LOCAL_FORMAT, s));
  }

  /** What an accepted record is made of. */
  lemma LocalParts(rest: bytes, offset: nat, info: ZipInfo, record: LocalRecord, stamp: Stamp, inflate: Inflater)
    requires CheckLocal(rest, offset, info, stamp, inflate) == Ok(record)
    ensures var n := 30 + |info.name|; var m := n + info.compressed;
      && m == record.extent <= |rest| && rest[..4] == LOCAL_SIGNATURE && rest[30..n] == info.name && info.localOffset == offset
      && LocalFields(rest) == LocalFieldsOf(info, stamp) && DataHolds(rest[n..m], record.payload, info, inflate)
  {
    hide LocalFields, Crc32;
  }

  lemma LocalConcat(rest: bytes, n: nat, m: nat)
    requires 30 <= n <= m <= |rest|
    ensures rest == rest[..4] + rest[4..30] + rest[30..n] + rest[n..m] + rest[m..]
  {
  }

  lemma LocalIsSpelled(rest: bytes, offset: nat, info: ZipInfo, record: LocalRecord, stamp: Stamp, inflate: Inflater) returns (data: bytes, tail: bytes)
    requires CheckLocal(rest, offset, info, stamp, inflate) == Ok(record)
    ensures LocalSpelled(rest, offset, info, data, tail, stamp) && DataHolds(data, record.payload, info, inflate)
    ensures record.extent == 30 + |info.name| + |data|
  {
    hide CheckLocal, LocalFields, Fits, Packed, LocalFieldsOf, DataHolds;
    var n, m := 30 + |info.name|, record.extent;
    LocalParts(rest, offset, info, record, stamp, inflate);
    LocalRead(rest, LocalFieldsOf(info, stamp));
    LocalConcat(rest, n, m);
    data, tail := rest[n..m], rest[m..];
  }

  lemma LocalSlices(v: seq<nat>, name: bytes, data: bytes, tail: bytes)
    requires |v| == 10
    ensures var rest, n := LOCAL_SIGNATURE + Packed(LOCAL_FORMAT, v) + name + data + tail, 30 + |name|;
      && |rest| >= n + |data| && rest[..4] == LOCAL_SIGNATURE && rest[4..30] == Packed(LOCAL_FORMAT, v)
      && rest[30..n] == name && rest[n..n + |data|] == data
  {
    hide Size, Pack;
    FormatSizes();
    var packed := Packed(LOCAL_FORMAT, v);
    assert |packed| == 26;
    var rest := LOCAL_SIGNATURE + packed + name + data + tail;
    assert rest == LOCAL_SIGNATURE + (packed + (name + (data + tail)));
  }

  lemma SpelledIsLocal(rest: bytes, offset: nat, info: ZipInfo, data: bytes, tail: bytes, stamp: Stamp, record: LocalRecord, inflate: Inflater)
    requires LocalSpelled(rest, offset, info, data, tail, stamp) && DataHolds(data, record.payload, info, inflate)
    requires record.extent == 30 + |info.name| + |data|
    ensures CheckLocal(rest, offset, info, stamp, inflate) == Ok(record)
  {
    hide LocalFields, Fits, Packed, Crc32;
    var v := LocalFieldsOf(info, stamp);
    LocalSlices(v, info.name, data, tail);
    LocalRead(rest, v);
  }

  /** One local record is accepted exactly when it is spelled and its data holds the payload. */
  lemma LocalExactly(rest: bytes, offset: nat, info: ZipInfo, record: LocalRecord, stamp: Stamp, inflate: Inflater)
    ensures CheckLocal(rest, offset, info, stamp, inflate) == Ok(record) <==>
      exists data, tail ::
        && LocalSpelled(rest, offset, info, data, tail, stamp) && DataHolds(data, record.payload, info, inflate)
        && record.extent == 30 + |info.name| + |data|
  {
    hide CheckLocal, LocalSpelled, DataHolds;
    if CheckLocal(rest, offset, info, stamp, inflate) == Ok(record) {
      var data, tail := LocalIsSpelled(rest, offset, info, record, stamp, inflate);
    }
    forall data, tail |
      LocalSpelled(rest, offset, info, data, tail, stamp) && DataHolds(data, record.payload, info, inflate)
      && record.extent == 30 + |info.name| + |data|
      ensures CheckLocal(rest, offset, info, stamp, inflate) == Ok(record)
    {
      SpelledIsLocal(rest, offset, info, data, tail, stamp, record, inflate);
    }
  }

  /** The local records of these members, one after another from this offset on, hold these payloads. */
  ghost predicate Tiled(rest: bytes, offset: nat, infos: seq<ZipInfo>, payloads: seq<bytes>, stamp: Stamp, inflate: Inflater)
    decreases |infos|
  {
    if infos == [] then rest == [] && payloads == []
    else
      && payloads != []
      && exists data, tail ::
           && LocalSpelled(rest, offset, infos[0], data, tail, stamp) && DataHolds(data, payloads[0], infos[0], inflate)
           && Tiled(tail, offset + 30 + |infos[0].name| + |data|, infos[1..], payloads[1..], stamp, inflate)
  }

  lemma LocalTail(rest: bytes, offset: nat, info: ZipInfo, data: bytes, tail: bytes, stamp: Stamp)
    requires LocalSpelled(rest, offset, info, data, tail, stamp)
    ensures 30 + |info.name| + |data| <= |rest| && rest[30 + |info.name| + |data|..] == tail
  {
    hide Size, Fits;
    FormatSizes();
  }

  lemma {:induction false} TiledRead(rest: bytes, offset: nat, infos: seq<ZipInfo>, stamp: Stamp, inflate: Inflater)
    requires LocalPayloads(rest, offset, infos, stamp, inflate).Some?
    ensures Tiled(rest, offset, infos, LocalPayloads(rest, offset, infos, stamp, inflate).value, stamp, inflate)
    decreases |infos|
  {
    hide CheckLocal, LocalSpelled, DataHolds;
    if infos != [] {
      var record := CheckLocal(rest, offset, infos[0], stamp, inflate).value;
      LocalExactly(rest, offset, infos[0], record, stamp, inflate);
      var data, tail :| LocalSpelled(rest, offset, infos[0], data, tail, stamp) && DataHolds(data, record.payload, infos[0], inflate)
        && record.extent == 30 + |infos[0].name| + |data|;
      LocalTail(rest, offset, infos[0], data, tail, stamp);
      TiledRead(tail, offset + record.extent, infos[1..], stamp, inflate);
    }
  }

  lemma {:induction false} TiledReads(rest: bytes, offset: nat, infos: seq<ZipInfo>, payloads: seq<bytes>, stamp: Stamp, inflate: Inflater)
    requires Tiled(rest, offset, infos, payloads, stamp, inflate)
    ensures LocalPayloads(rest, offset, infos, stamp, inflate) == Some(payloads)
    decreases |infos|
  {
    hide CheckLocal, LocalSpelled, DataHolds;
    if infos != [] {
      var data, tail :| LocalSpelled(rest, offset, infos[0], data, tail, stamp) && DataHolds(data, payloads[0], infos[0], inflate)
        && Tiled(tail, offset + 30 + |infos[0].name| + |data|, infos[1..], payloads[1..], stamp, inflate);
      var record := LocalRecord(payloads[0], 30 + |infos[0].name| + |data|);
      LocalExactly(rest, offset, infos[0], record, stamp, inflate);
      LocalTail(rest, offset, infos[0], data, tail, stamp);
      TiledReads(tail, offset + record.extent, infos[1..], payloads[1..], stamp, inflate);
      assert [payloads[0]] + payloads[1..] == payloads;
    }
  }

  // ---- the whole container ----

  /** Local records that tile the space before the directory, central records that tile the directory,
      and the end record; the members are in budget, apart, of one method, and under their safe names. */
  ghost predicate WheelOf(raw: bytes, d: Directory, infos: seq<ZipInfo>, payloads: seq<bytes>, build: WheelBuild) {
    && Ended(raw, d) && |infos| == d.members && |payloads| == |infos|
    && Central(raw[d.offset..d.eocd], infos, d.offset, build.stamp, build.policy)
    && DirectoryOk(infos, build.policy, false, None)
    && Tiled(raw[..d.offset], 0, infos, payloads, build.stamp, build.inflate)
    && forall i :: 0 <= i < |infos| ==> infos[i].safe == infos[i].name
  }

  ghost predicate MembersAre(infos: seq<ZipInfo>, payloads: seq<bytes>, entries: seq<WheelEntry>) {
    && |entries| == |infos| == |payloads|
    && forall i :: 0 <= i < |entries| ==> entries[i].name == infos[i].name && entries[i].payload == payloads[i]
  }

  /** A container is a wheel with these contents exactly when it is put together like that. */
  lemma ContentsExactly(raw: bytes, entries: seq<WheelEntry>, build: WheelBuild)
    ensures Contents(raw, build) == Some(entries) <==>
      exists d, infos, payloads :: WheelOf(raw, d, infos, payloads, build) && MembersAre(infos, payloads, entries)
  {
    hide DirectoryContract, CentralRecords, LocalPayloads, DirectoryOk, Ended, Central, Tiled;
    if Contents(raw, build) == Some(entries) {
      var d := DirectoryContract(raw).value;
      var infos := Preflight(raw, d, build.stamp, build.policy, false, None).value;
      var payloads := LocalPayloads(raw[..d.offset], 0, infos, build.stamp, build.inflate).value;
      DirectoryExactly(raw, d);
      CentralRecordsExactly(raw[d.offset..d.eocd], infos, d.offset, build.stamp, build.policy);
      TiledRead(raw[..d.offset], 0, infos, build.stamp, build.inflate);
      assert WheelOf(raw, d, infos, payloads, build);
    }
    forall d, infos, payloads | WheelOf(raw, d, infos, payloads, build) && MembersAre(infos, payloads, entries)
      ensures Contents(raw, build) == Some(entries)
    {
      DirectoryExactly(raw, d);
      CentralRecordsExactly(raw[d.offset..d.eocd], infos, d.offset, build.stamp, build.policy);
      TiledReads(raw[..d.offset], 0, infos, payloads, build.stamp, build.inflate);
      assert Named(infos, payloads) == entries;
    }
  }
}
