/** The layout check of build-tool output, which is looser than the verifier's: owners,
    modes and times are free, and an extended header may carry a time.  Every tar the
    canonical writer makes passes it, and reads back as the entries it was made from. */
module TarSource {
  import opened Outcomes
  import opened Bytes
  import opened Text
  import opened Pax
  import opened TarHeader
  import opened Tar
  import opened TarWriter
  import opened ReleaseContract

  // ---- extended headers of build tools ----

  const DOT: byte := 0x2e
  const MAX_MTIME_CHARS: nat := 32

  /** `(0|[1-9][0-9]*)(\.(0|[0-9]*[1-9]))?` on at most 32 characters. */
  predicate MtimeSpelled(text: bytes) {
    var dot := Find(text, DOT, 0);
    && |text| <= MAX_MTIME_CHARS && CanonicalDec(text[..dot])
    && (dot == |text| ||
        var fraction := text[dot + 1..];
        && fraction != [] && AllDigits(fraction)
        && (fraction == [0x30] || fraction[|fraction| - 1] != 0x30))
  }

  /** The integer nearest to a spelled time, halves to even. */
  function NearestSecond(text: bytes): nat
    requires MtimeSpelled(text)
  {
    var dot := Find(text, DOT, 0);
    var whole := DecValue(text[..dot]);
    if dot == |text| then whole
    else
      var fraction := text[dot + 1..];
      if fraction == [0x35] then whole + whole % 2
      else if fraction[0] >= 0x35 then whole + 1
      else whole
  }

  function WithoutSlash(path: bytes): bytes {
    if EndsInSlash(path) then path[..|path| - 1] else path
  }

  /** `_validate_source_pax_records` */
  predicate SourcePaxOk(records: PaxRecords, modified: nat, policy: NamePolicy) {
    && records != NO_RECORDS
    && (records.path.Some? ==>
          ValidUtf8(WithoutSlash(records.path.value))
          && SafeReleaseName(WithoutSlash(records.path.value), policy).Some?)
    && (records.mtime.Some? ==>
          MtimeSpelled(records.mtime.value) && NearestSecond(records.mtime.value) == modified)
  }

  // ---- one record ----

  /** A member as the archive library reports it: its path (from the extended header when
      there is one), its header fields, and its contents at the recorded offset. */
  datatype RawMember = RawMember(
    path: bytes, pax: bool, mode: nat, memberType: byte, uname: bytes, gname: bytes, data: bytes)

  datatype SourceRecord = SourceRecord(header: SourceHeader, data: bytes, tail: bytes)

  function ReadSource(rest: bytes, paxPath: Option<bytes>): (r: Option<SourceRecord>)
    requires |rest| >= BLOCK && (paxPath.Some? ==> ValidUtf8(paxPath.value))
    ensures r.Some? ==> |r.value.tail| < |rest| && r.value.tail == rest[|rest| - |r.value.tail|..]
    ensures r.Some? ==> r.value.header.memberType in {XHDTYPE, REGTYPE, DIRTYPE}
  {
    var header := CheckSourceHeader(rest[..BLOCK], paxPath);
    if header.Err? then None
    else
      var size := header.value.size;
      var next := BLOCK + RoundUp(size);
      if next > |rest| || !AllZero(rest[BLOCK + size..next]) then None
      else Some(SourceRecord(header.value, rest[BLOCK..BLOCK + size], rest[next..]))
  }

  // ---- the loop ----

  predicate PendingText(pending: Option<PaxRecords>) {
    pending.Some? && pending.value.path.Some? ==> ValidUtf8(pending.value.path.value)
  }

  function PendingPath(pending: Option<PaxRecords>): Option<bytes> {
    if pending.None? then None else pending.value.path
  }

  function RawOf(record: SourceRecord, pending: Option<PaxRecords>): RawMember {
    var path := PendingPath(pending);
    RawMember(if path.Some? then path.value else record.header.name, path.Some?, record.header.mode,
              record.header.memberType, record.header.uname, record.header.gname, record.data)
  }

  /** What the loop of `_validate_source_tar_layout` finds in the bytes still unread. */
  function ParseSource(rest: bytes, pending: Option<PaxRecords>, count: nat, total: nat, policy: NamePolicy): Option<seq<RawMember>>
    requires PendingText(pending)
    decreases |rest|
  {
    if |rest| < BLOCK then None
    else if AllZero(rest[..BLOCK]) then
      if pending.None? && EndsArchive(rest) then Some([]) else None
    else
      var record := ReadSource(rest, PendingPath(pending));
      if record.None? then None
      else if record.value.header.memberType == XHDTYPE then
        var records := ParseStrict(record.value.data, NO_RECORDS);
        if pending.Some? || |record.value.data| > MAX_PAX_HEADER_BYTES || records.None? then None
        else
          StrictTextIsValid(record.value.data, NO_RECORDS);
          ParseSource(record.value.tail, records, count, total, policy)
      else
        var size := if record.value.header.memberType == REGTYPE then |record.value.data| else 0;
        if !WithinBudget(count + 1, size, total) then None
        else if pending.Some? && !SourcePaxOk(pending.value, record.value.header.modified, policy) then None
        else
          var later := ParseSource(record.value.tail, None, count + 1, total + size, policy);
          if later.None? then None else Some([RawOf(record.value, pending)] + later.value)
  }

  lemma {:induction false} StrictTextIsValid(rest: bytes, records: PaxRecords)
    requires ParseStrict(rest, records).Some? && (records.path.Some? ==> ValidUtf8(records.path.value))
    ensures var out := ParseStrict(rest, records).value; out.path.Some? ==> ValidUtf8(out.path.value)
    decreases |rest|
  {
    if rest != [] {
      var m := MatchRecord(rest).value;
      StrictTextIsValid(rest[DecValue(m.0)..], Added(records, m.1, m.2).value);
    }
  }

  /** `_validate_source_tar_layout` */
  method ValidateSourceTarLayout(payload: bytes, policy: NamePolicy) returns (r: Result<()>)
    ensures r.Ok? <==> |payload| % CONTAINER == 0 && ParseSource(payload, None, 0, 0, policy).Some?
  {
    hide ParseSource, ParseStrict, ReadSource, EndsArchive, ValidUtf8, SourcePaxOk;
    if |payload| == 0 || |payload| % CONTAINER != 0 {
      NothingToParse(policy);
      return Err("tar length is noncanonical");
    }
    var offset := 0;
    var pending: Option<PaxRecords> := None;
    var memberCount: nat, totalSize: nat := 0, 0;
    assert payload[0..] == payload;
    while offset + BLOCK <= |payload|
      invariant offset <= |payload| && PendingText(pending)
      invariant ParseSource(payload[offset..], pending, memberCount, totalSize, policy).Some?
        <==> ParseSource(payload, None, 0, 0, policy).Some?
    {
      ghost var rest := payload[offset..];
      var header := payload[offset..offset + BLOCK];
      assert rest[..BLOCK] == header;
      SourceStep(rest, pending, memberCount, totalSize, policy);
      if AllZero(header) {
        var problem := EndProblem(payload, offset, pending.Some?);
        return if problem.None? then Ok(()) else Err(problem.value);
      }
      var record := ReadSource(payload[offset..], PendingPath(pending));
      if record.None? {
        return Err("tar member header or boundary is invalid");
      }
      var data := record.value.data;
      if record.value.header.memberType == XHDTYPE {
        if pending.Some? || |data| > MAX_PAX_HEADER_BYTES {
          return Err("PAX header boundary is invalid");
        }
        var records := ParsePaxPayload(data);
        if records.Err? {
          return Err(records.reason);
        }
        assert PendingText(Some(records.value)) by { StrictTextIsValid(data, NO_RECORDS); }
        pending := Some(records.value);
      } else {
        var size := if record.value.header.memberType == REGTYPE then |data| else 0;
        if !WithinBudget(memberCount + 1, size, totalSize) {
          return Err("tar exceeds its member budget");
        }
        if pending.Some? && !SourcePaxOk(pending.value, record.value.header.modified, policy) {
          return Err("PAX records are noncanonical");
        }
        memberCount, totalSize, pending := memberCount + 1, totalSize + size, None;
      }
      offset := |payload| - |record.value.tail|;
      assert payload[offset..] == record.value.tail by { TailAgain(payload, rest, record.value.tail); }
    }
    SourceStep(payload[offset..], pending, memberCount, totalSize, policy);
    return Err("tar end marker is missing");
  }

  lemma TailAgain(payload: bytes, rest: bytes, tail: bytes)
    requires |tail| <= |rest| <= |payload|
    requires rest == payload[|payload| - |rest|..] && tail == rest[|rest| - |tail|..]
    ensures tail == payload[|payload| - |tail|..]
  {
  }

  lemma NothingToParse(policy: NamePolicy)
    ensures ParseSource([], None, 0, 0, policy) == None
  {
  }

  /** One turn of the loop, branch by branch. */
  lemma SourceStep(rest: bytes, pending: Option<PaxRecords>, count: nat, total: nat, policy: NamePolicy)
    requires PendingText(pending)
    ensures |rest| < BLOCK ==> ParseSource(rest, pending, count, total, policy) == None
    ensures |rest| >= BLOCK && AllZero(rest[..BLOCK]) ==>
      ParseSource(rest, pending, count, total, policy) == (if pending.None? && EndsArchive(rest) then Some([]) else None)
    ensures |rest| >= BLOCK && !AllZero(rest[..BLOCK]) ==>
      var record := ReadSource(rest, PendingPath(pending));
      && (record.None? ==> ParseSource(rest, pending, count, total, policy) == None)
      && (record.Some? && record.value.header.memberType == XHDTYPE ==>
            var records := ParseStrict(record.value.data, NO_RECORDS);
            && PendingText(records)
            && ParseSource(rest, pending, count, total, policy)
               == if pending.Some? || |record.value.data| > MAX_PAX_HEADER_BYTES || records.None? then None
                  else ParseSource(record.value.tail, records, count, total, policy))
      && (record.Some? && record.value.header.memberType != XHDTYPE ==>
            var size := if record.value.header.memberType == REGTYPE then |record.value.data| else 0;
            var later := ParseSource(record.value.tail, None, count + 1, total + size, policy);
            ParseSource(rest, pending, count, total, policy)
            == if !WithinBudget(count + 1, size, total)
                  || (pending.Some? && !SourcePaxOk(pending.value, record.value.header.modified, policy))
                  || later.None? then None
               else Some([RawOf(record.value, pending)] + later.value))
  {
    hide ReadSource, ParseStrict, EndsArchive, ValidUtf8, SourcePaxOk;
    if |rest| >= BLOCK && !AllZero(rest[..BLOCK]) {
      var record := ReadSource(rest, PendingPath(pending));
      if record.Some? && record.value.header.memberType == XHDTYPE {
        var records := ParseStrict(record.value.data, NO_RECORDS);
        if records.Some? { StrictTextIsValid(record.value.data, NO_RECORDS); }
      }
    }
  }

  // ---- canonical output is acceptable input ----

  /** What the archive library reports for a written entry. */
  function EntryRaw(e: TarEntry): RawMember {
    var directory := e.payload.None?;
    RawMember(EntryPath(e), NeedsPax(EntryPath(e)), if directory then DIRECTORY_MODE else FILE_MODE,
              if directory then DIRTYPE else REGTYPE, [], [], EntryData(e))
  }

  function EntryRaws(entries: seq<TarEntry>): (raws: seq<RawMember>)
    ensures |raws| == |entries|
    ensures forall i :: 0 <= i < |raws| ==> raws[i] == EntryRaw(entries[i])
  {
    seq(|entries|, i requires 0 <= i < |entries| => EntryRaw(entries[i]))
  }

  lemma ReadsBack(rest: bytes, header: bytes, data: bytes, tail: bytes, pax: Option<bytes>, fields: SourceHeader)
    requires |header| == BLOCK && rest == header + Blocked(data) + tail && (pax.Some? ==> ValidUtf8(pax.value))
    requires CheckSourceHeader(header, pax) == Ok(fields) && fields.size == |data|
    ensures |rest| >= BLOCK && rest[..BLOCK] == header
    ensures ReadSource(rest, pax) == Some(SourceRecord(fields, data, tail))
  {
    hide CheckSourceHeader;
    var next := BLOCK + RoundUp(|data|);
    assert rest[..BLOCK] == header;
    assert rest[BLOCK..next] == Blocked(data);
    BlockedExact(rest, |data|);
    assert rest[BLOCK..BLOCK + |data|] == data;
    assert rest[next..] == tail;
  }

  lemma PaxReadsBack(rest: bytes, path: bytes, length: nat, tail: bytes)
    requires PendingOk(Some((path, length))) && NEWLINE !in path && rest == PaxImage(path, length) + tail
    ensures |rest| >= BLOCK && !AllZero(rest[..BLOCK])
    ensures var record := ReadSource(rest, None);
      && record.Some? && record.value.header.memberType == XHDTYPE && record.value.tail == tail
      && |record.value.data| == length
      && ParseStrict(record.value.data, NO_RECORDS) == Some(PaxRecords(None, Some(path)))
  {
    hide CanonicalHeader, CheckSourceHeader, ParseStrict, ValidUtf8, ReadSource, Dec;
    var data := Record(length, PATH_KEY, path);
    assert |data| == length;
    var fields := SourceHeader(PAX_NAME, 0, length, 0, XHDTYPE, [], []);
    PaxHeaderName(length);
    SourceReadsCanonical(PaxHeader(length), PAX_NAME, 0, length, 0, XHDTYPE, None);
    assert rest == PaxHeader(length) + Blocked(data) + tail;
    ReadsBack(rest, PaxHeader(length), data, tail, None, fields);
    PaxNotZero(rest, path, length, tail);
    StrictReadsPath(data, path);
  }

  lemma BodyReadsBack(rest: bytes, e: TarEntry, policy: NamePolicy, timestamp: nat, tail: bytes)
    requires SafeEntry(e, policy) && timestamp < 0x1_0000_0000
    requires TextPath(EntryPath(e)) && rest == BodyImage(EntryPath(e), EntryData(e), timestamp) + tail
    ensures |rest| >= BLOCK && !AllZero(rest[..BLOCK])
    ensures var pax := if NeedsPax(EntryPath(e)) then Some(EntryPath(e)) else None;
      var record := ReadSource(rest, pax);
      && record.Some? && record.value.header.memberType != XHDTYPE && record.value.tail == tail
      && RawOf(record.value, if pax.None? then None else Some(PaxRecords(None, pax))) == EntryRaw(e)
      && record.value.data == EntryData(e)
  {
    hide CanonicalHeader, CheckSourceHeader, ValidUtf8, ReadSource, SafeEntry, AsciiReplace;
    SafeEntryMember(e, policy, timestamp);
    var m := EntryMember(e);
    var pax := if NeedsPax(m.path) then Some(m.path) else None;
    var directory := e.payload.None?;
    var mode := if directory then DIRECTORY_MODE else FILE_MODE;
    var memberType := if directory then DIRTYPE else REGTYPE;
    var name := HeaderNameOf(m.path);
    var header := CanonicalHeader(name, mode, |m.data|, timestamp, memberType);
    assert header == BodyHeader(m.path, |m.data|, timestamp);
    HeaderCarriesName(m.path, |m.data|, timestamp, pax);
    SourceReadsCanonical(header, name, mode, |m.data|, timestamp, memberType, pax);
    BodyBytes(rest, m, timestamp, tail);
    ReadsBack(rest, header, m.data, tail, pax, SourceHeader(name, mode, |m.data|, timestamp, memberType, [], []));
    BodyNotZero(rest, m, timestamp, tail);
  }

  /** The path the writer announced is one the source check allows. */
  lemma PathRecordOk(e: TarEntry, policy: NamePolicy, modified: nat)
    requires SafeEntry(e, policy)
    ensures SourcePaxOk(PaxRecords(None, Some(EntryPath(e))), modified, policy)
  {
    hide SafeReleaseName, ValidUtf8;
    SafeBytes(e.name, policy);
    assert WithoutSlash(EntryPath(e)) == e.name;
  }

  /** The extended header of the first entry is behind, and what remains is unread. */
  function Behind(entries: seq<TarEntry>): (bytes, nat)
    requires entries != []
  {
    (EntryPath(entries[0]), EntryMember(entries[0]).paxLength)
  }

  function BehindRecords(entries: seq<TarEntry>, behind: bool): Option<PaxRecords>
    requires behind ==> entries != []
  {
    if behind then Some(PaxRecords(None, Some(EntryPath(entries[0])))) else None
  }

  lemma BodyTurn(rest: bytes, entries: seq<TarEntry>, behind: bool, tail: bytes, count: nat, total: nat, policy: NamePolicy, timestamp: nat)
    requires timestamp < 0x1_0000_0000 && entries != [] && SafeEntry(entries[0], policy)
    requires (behind <==> NeedsPax(EntryPath(entries[0]))) && TextPath(EntryPath(entries[0]))
    requires rest == BodyImage(EntryPath(entries[0]), EntryData(entries[0]), timestamp) + tail
    requires WithinBudget(count + 1, |EntryData(entries[0])|, total)
    requires ParseSource(tail, None, count + 1, total + |EntryData(entries[0])|, policy) == Some(EntryRaws(entries[1..]))
    ensures ParseSource(rest, BehindRecords(entries, behind), count, total, policy) == Some(EntryRaws(entries))
  {
    hide ReadSource, ParseStrict, ParseSource, BodyImage, ValidUtf8, SafeEntry, SourcePaxOk;
    var e := entries[0];
    var pending := BehindRecords(entries, behind);
    SourceStep(rest, pending, count, total, policy);
    BodyReadsBack(rest, e, policy, timestamp, tail);
    PathRecordOk(e, policy, ReadSource(rest, PendingPath(pending)).value.header.modified);
    assert EntryRaws(entries) == [EntryRaw(e)] + EntryRaws(entries[1..]);
    assert e.payload.None? ==> EntryData(e) == [];
  }

  lemma PaxTurn(rest: bytes, entries: seq<TarEntry>, tail: bytes, count: nat, total: nat, policy: NamePolicy)
    requires entries != [] && PendingOk(Some(Behind(entries))) && NEWLINE !in EntryPath(entries[0])
    requires rest == PaxImage(Behind(entries).0, Behind(entries).1) + tail
    requires ParseSource(tail, BehindRecords(entries, true), count, total, policy) == Some(EntryRaws(entries))
    ensures ParseSource(rest, None, count, total, policy) == Some(EntryRaws(entries))
  {
    hide ReadSource, ParseStrict, ParseSource, PaxImage, ValidUtf8;
    SourceStep(rest, None, count, total, policy);
    PaxReadsBack(rest, Behind(entries).0, Behind(entries).1, tail);
    SmallHeader(Behind(entries));
  }

  lemma {:induction false} SourceComplete(rest: bytes, entries: seq<TarEntry>, behind: bool, count: nat, total: nat, policy: NamePolicy, timestamp: nat)
    requires timestamp < 0x1_0000_0000 && (forall i :: 0 <= i < |entries| ==> SafeEntry(entries[i], policy))
    requires behind ==> entries != [] && NeedsPax(EntryPath(entries[0])) && ValidUtf8(EntryPath(entries[0]))
    requires LeftOver(rest, EntryMembers(entries), timestamp, if behind then Some(Behind(entries)) else None, count, total)
    ensures ParseSource(rest, BehindRecords(entries, behind), count, total, policy) == Some(EntryRaws(entries))
    decreases |rest|
  {
    hide ReadSource, ParseStrict, ParseSource, BodyImage, PaxImage, MemberOk, ValidUtf8, FixedPoint, SafeEntry, SourcePaxOk,
         EntryImage, MemberImage, LeastFixedPoint, Writable, EntryRaws, NeedsPax;
    var ms := EntryMembers(entries);
    if entries == [] {
      SourceStep(rest, None, count, total, policy);
      assert ms == [];
      EmptyLeftOver(rest, timestamp, count, total);
      assert AllZero(rest[..BLOCK]);
      assert EntryRaws(entries) == [];
    } else {
      var e := entries[0];
      SafeEntryMember(e, policy, timestamp);
      if !behind && NeedsPax(ms[0].path) {
        MemberPending(ms[0], timestamp);
        var tail := PaxSplit(rest, ms, timestamp, count, total);
        SourceComplete(tail, entries, true, count, total, policy, timestamp);
        PaxTurn(rest, entries, tail, count, total, policy);
      } else {
        var tail := BodySplit(rest, ms, timestamp, if behind then Some(Behind(entries)) else None, count, total);
        assert ms[1..] == EntryMembers(entries[1..]);
        SourceComplete(tail, entries[1..], false, count + 1, total + |EntryData(e)|, policy, timestamp);
        EntryBudget(entries, timestamp, count, total);
        BodyTurn(rest, entries, behind, tail, count, total, policy, timestamp);
      }
    }
  }

  lemma SmallHeader(pending: (bytes, nat))
    requires PendingOk(Some(pending))
    ensures pending.1 <= MAX_PAX_HEADER_BYTES
  {
  }

  lemma EntryBudget(entries: seq<TarEntry>, timestamp: nat, count: nat, total: nat)
    requires entries != [] && count + |entries| <= MAX_ARCHIVE_MEMBERS
    requires total + TotalSize(EntryMembers(entries)) <= MAX_TOTAL_BYTES
    requires MemberOk(EntryMember(entries[0]), timestamp)
    ensures WithinBudget(count + 1, |EntryData(entries[0])|, total)
  {
    var ms := EntryMembers(entries);
    assert TotalSize(ms) == |ms[0].data| + TotalSize(ms[1..]);
  }

  /** Every tar of safe entries passes the source check, and reads back as its entries. */
  lemma CanonicalIsSource(entries: seq<TarEntry>, policy: NamePolicy, timestamp: nat)
    requires SafeEntries(entries, policy, timestamp)
    ensures TextNames(entries)
    ensures var payload := EntriesTar(entries, timestamp);
      |payload| % CONTAINER == 0 && ParseSource(payload, None, 0, 0, policy) == Some(EntryRaws(entries))
  {
    hide SafeEntry, MemberOk, ParseSource, EntriesImage, Images;
    ImagesAgree(entries, policy, timestamp);
    var ms := EntryMembers(entries);
    var payload := EntriesTar(entries, timestamp);
    AlignedEnd(payload, ms, timestamp);
    SourceComplete(payload, entries, false, 0, 0, policy, timestamp);
  }
}
