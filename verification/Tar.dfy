/** The layout of the canonical sdist tar, and the release verifier's check, which accepts
    exactly the canonical encodings. */
module Tar {
  import opened Outcomes
  import opened Bytes
  import opened Text
  import opened Pax
  import opened TarHeader
  import opened ReleaseContract

  const CONTAINER: nat := 10_240

  // ---- the format ----

  /** One archive member: its path as spelled (a directory ends in a slash), its contents,
      and the length its extended path record announces, zero when it has none. */
  datatype Member = Member(path: bytes, data: bytes, paxLength: nat)

  predicate NeedsPax(path: bytes) {
    !Ascii(path) || |path| > NAME_WIDTH
  }

  function RoundUp(size: nat): (r: nat)
    ensures size <= r < size + BLOCK
  {
    (size + 511) / 512 * 512
  }

  function Blocked(data: bytes): (r: bytes)
    ensures |r| == RoundUp(|data|)
  {
    data + Zeros(RoundUp(|data|) - |data|)
  }

  predicate TextPath(path: bytes) {
    NeedsPax(path) ==> ValidUtf8(path)
  }

  function HeaderNameOf(path: bytes): (name: bytes)
    requires TextPath(path)
    ensures |name| <= NAME_WIDTH
  {
    if NeedsPax(path) then BaseName(path, NAME_WIDTH) else path
  }

  function PaxImage(path: bytes, length: nat): bytes {
    CanonicalHeader(PAX_NAME, 0, length, 0, XHDTYPE) + Blocked(Record(length, PATH_KEY, path))
  }

  function BodyHeader(path: bytes, size: nat, modified: nat): bytes
    requires TextPath(path)
  {
    if EndsInSlash(path) then CanonicalHeader(HeaderNameOf(path), DIRECTORY_MODE, size, modified, DIRTYPE)
    else CanonicalHeader(HeaderNameOf(path), FILE_MODE, size, modified, REGTYPE)
  }

  function BodyImage(path: bytes, data: bytes, modified: nat): bytes
    requires TextPath(path)
  {
    BodyHeader(path, |data|, modified) + Blocked(data)
  }

  function MemberImage(m: Member, modified: nat): bytes
    requires TextPath(m.path)
  {
    (if NeedsPax(m.path) then PaxImage(m.path, m.paxLength) else []) + BodyImage(m.path, m.data, modified)
  }

  /** What every accepted member satisfies. */
  predicate MemberOk(m: Member, modified: nat) {
    && m.path != [] && modified < SIZE_LIMIT && |m.data| <= MAX_MEMBER_BYTES
    && (EndsInSlash(m.path) ==> m.data == [])
    && (if NeedsPax(m.path) then
          ValidUtf8(m.path) && FixedPoint(m.paxLength, RecordBody(PATH_KEY, m.path)) && m.paxLength <= MAX_PAX_HEADER_BYTES
        else 0 !in m.path && m.paxLength == 0)
  }

  predicate MembersOk(ms: seq<Member>, modified: nat) {
    forall i :: 0 <= i < |ms| ==> MemberOk(ms[i], modified)
  }

  function Images(ms: seq<Member>, modified: nat): bytes
    requires MembersOk(ms, modified)
  {
    if ms == [] then [] else MemberImage(ms[0], modified) + Images(ms[1..], modified)
  }

  /** Two zero blocks and the zero padding up to a whole container. */
  function EndSize(offset: nat): (n: nat)
    ensures 1_024 <= n < 1_024 + CONTAINER && (offset + n) % CONTAINER == 0
  {
    1_024 + (CONTAINER - 1 - (offset + 1_023) % CONTAINER)
  }

  function TarImage(ms: seq<Member>, modified: nat): bytes
    requires MembersOk(ms, modified)
  {
    Images(ms, modified) + Zeros(EndSize(|Images(ms, modified)|))
  }

  function TotalSize(ms: seq<Member>): nat {
    if ms == [] then 0 else |ms[0].data| + TotalSize(ms[1..])
  }

  /** `payload` is the canonical encoding of `ms` in this order, within the budgets. */
  ghost predicate CanonicalLayout(payload: bytes, ms: seq<Member>, modified: nat) {
    && MembersOk(ms, modified) && |ms| <= MAX_ARCHIVE_MEMBERS && TotalSize(ms) <= MAX_TOTAL_BYTES
    && payload == TarImage(ms, modified)
  }

  // ---- one record of the verifier's loop ----

  /** A record at the head of `rest`: header, contents, and zero padding. */
  datatype TarRecord = TarRecord(name: bytes, data: bytes, memberType: byte, tail: bytes)

  function ReadRecord(rest: bytes, modified: nat, paxPath: Option<bytes>): (r: Option<TarRecord>)
    requires |rest| >= BLOCK && (paxPath.Some? ==> ValidUtf8(paxPath.value))
    ensures r.Some? ==> |r.value.tail| < |rest|
  {
    var header := CheckHeader(rest[..BLOCK], modified, paxPath);
    var name := HeaderName(rest[..BLOCK][..100], paxPath);
    if header.Err? || name.None? then None
    else
      var (size, memberType) := header.value;
      var next := BLOCK + RoundUp(size);
      if next > |rest| || !AllZero(rest[BLOCK + size..next]) then None
      else Some(TarRecord(name.value, rest[BLOCK..BLOCK + size], memberType, rest[next..]))
  }

  lemma BlockedExact(rest: bytes, size: nat)
    requires BLOCK + RoundUp(size) <= |rest|
    ensures AllZero(rest[BLOCK + size..BLOCK + RoundUp(size)]) <==>
      rest[BLOCK..BLOCK + RoundUp(size)] == Blocked(rest[BLOCK..BLOCK + size])
  {
    var next := BLOCK + RoundUp(size);
    var part := rest[BLOCK..next];
    AllZeroIsZeros(rest[BLOCK + size..next]);
    assert part == rest[BLOCK..BLOCK + size] + rest[BLOCK + size..next];
    assert part[size..] == rest[BLOCK + size..next];
  }

  /** A record is read exactly when the bytes are a written header and the padded contents. */
  lemma RecordExact(rest: bytes, modified: nat, paxPath: Option<bytes>, record: TarRecord)
    requires |rest| >= BLOCK && (paxPath.Some? ==> ValidUtf8(paxPath.value))
    ensures ReadRecord(rest, modified, paxPath) == Some(record) <==>
      && HeaderName(rest[..BLOCK][..100], paxPath) == Some(record.name)
      && WrittenHeader(rest[..BLOCK], modified, record.name,
           EndsInSlash(if paxPath.Some? then paxPath.value else record.name), |record.data|, record.memberType)
      && rest == rest[..BLOCK] + Blocked(record.data) + record.tail
  {
    hide HeaderName, WrittenHeader, CheckHeader;
    var size := |record.data|;
    HeaderExact(rest[..BLOCK], modified, paxPath, size, record.memberType);
    if ReadRecord(rest, modified, paxPath) == Some(record) {
      var (s, t) := CheckHeader(rest[..BLOCK], modified, paxPath).value;
      assert BLOCK + s <= BLOCK + RoundUp(s) <= |rest|;
      assert record.data == rest[BLOCK..BLOCK + s];
      assert s == size && t == record.memberType;
    }
    var next := BLOCK + RoundUp(size);
    if next <= |rest| {
      BlockedExact(rest, size);
      assert rest == rest[..BLOCK] + rest[BLOCK..next] + rest[next..];
      if rest == rest[..BLOCK] + Blocked(record.data) + record.tail {
        assert rest[BLOCK..next] == Blocked(record.data);
        assert rest[BLOCK..BLOCK + size] == record.data;
        assert rest[next..] == record.tail;
      }
    }
  }

  // ---- the loop ----

  /** Zero blocks that end the archive: at least two, and less than a container beyond them. */
  predicate EndsArchive(rest: bytes) {
    AllZero(rest) && 1_024 <= |rest| < 1_024 + CONTAINER
  }

  /** The members still unread, after an extended header for `pending` when there is one. */
  function ParseLayout(rest: bytes, modified: nat, pending: Option<(bytes, nat)>, count: nat, total: nat): (r: Option<seq<Member>>)
    requires pending.Some? ==> ValidUtf8(pending.value.0)
    decreases |rest|
  {
    if |rest| < BLOCK then None
    else if AllZero(rest[..BLOCK]) then
      if pending.None? && EndsArchive(rest) then Some([]) else None
    else
      var record := ReadRecord(rest, modified, if pending.None? then None else Some(pending.value.0));
      if record.None? then None
      else if record.value.memberType == XHDTYPE then
        var path := PathOf(record.value.data);
        if pending.Some? || |record.value.data| > MAX_PAX_HEADER_BYTES || path.None? then None
        else ParseLayout(record.value.tail, modified, Some((path.value, |record.value.data|)), count, total)
      else
        var size := |record.value.data|;
        if !WithinBudget(count + 1, size, total) then None
        else
          var m := if pending.None? then Member(record.value.name, record.value.data, 0)
                   else Member(pending.value.0, record.value.data, pending.value.1);
          Prepended(m, ParseLayout(record.value.tail, modified, None, count + 1, total + size))
  }

  function Prepended(m: Member, rest: Option<seq<Member>>): Option<seq<Member>> {
    if rest.None? then None else Some([m] + rest.value)
  }

  /** `_require_canonical_pax_payload` after `_parse_pax_records`: one path, and one that
      needs its record. */
  function PathOf(payload: bytes): (path: Option<bytes>)
    ensures path.Some? ==> ValidUtf8(path.value) && NeedsPax(path.value)
  {
    var records := ParseLax(payload, NO_RECORDS);
    if records.None? || records.value.mtime.Some? || records.value.path.None?
       || !NeedsPax(records.value.path.value) then None
    else
      LaxTextIsValid(payload, NO_RECORDS);
      Some(records.value.path.value)
  }

  lemma {:induction false} LaxTextIsValid(rest: bytes, records: PaxRecords)
    requires ParseLax(rest, records).Some? && (records.path.Some? ==> ValidUtf8(records.path.value))
    ensures var out := ParseLax(rest, records).value; out.path.Some? ==> ValidUtf8(out.path.value)
    decreases |rest|
  {
    if rest != [] {
      var c := CutRecord(rest).value;
      LaxTextIsValid(rest[c.0..], Added(records, c.1, c.2).value);
    }
  }

  lemma PathOfExact(payload: bytes, path: bytes)
    ensures PathOf(payload) == Some(path) <==> PathPayload(payload, path) && NeedsPax(path)
  {
    hide ParseLax, ValidUtf8;
    LaxReadsPath(payload, path);
  }

  // ---- exactness ----

  /** The bytes of `ms` that are left when the extended header of the first may be behind. */
  function Remaining(ms: seq<Member>, modified: nat, pending: Option<(bytes, nat)>): bytes
    requires MembersOk(ms, modified) && (pending.Some? ==> ms != [])
  {
    if pending.None? then Images(ms, modified)
    else BodyImage(ms[0].path, ms[0].data, modified) + Images(ms[1..], modified)
  }

  /** `rest` is the canonical encoding of what is left of `ms`, within what is left of the budgets. */
  ghost predicate LeftOver(rest: bytes, ms: seq<Member>, modified: nat, pending: Option<(bytes, nat)>, count: nat, total: nat) {
    && MembersOk(ms, modified) && (ms != [] ==> count + |ms| <= MAX_ARCHIVE_MEMBERS && total + TotalSize(ms) <= MAX_TOTAL_BYTES)
    && (pending.Some? ==> ms != [] && ms[0].path == pending.value.0 && ms[0].paxLength == pending.value.1 && NeedsPax(ms[0].path))
    && var image := Remaining(ms, modified, pending);
       && |image| + 1_024 <= |rest| < |image| + 1_024 + CONTAINER
       && rest == image + Zeros(|rest| - |image|)
  }

  predicate PendingOk(pending: Option<(bytes, nat)>) {
    pending.Some? ==>
      && NeedsPax(pending.value.0) && ValidUtf8(pending.value.0)
      && FixedPoint(pending.value.1, RecordBody(PATH_KEY, pending.value.0)) && pending.value.1 <= MAX_PAX_HEADER_BYTES
  }

  lemma NotZeroBlock(header: bytes, name: bytes, mode: nat, size: nat, modified: nat, memberType: byte)
    requires |header| == BLOCK && |name| <= NAME_WIDTH && header == CanonicalHeader(name, mode, size, modified, memberType)
    ensures !AllZero(header)
  {
    hide CanonicalHeader;
    CanonicalHeaderSplits(header, name, mode, size, modified, memberType);
    assert header[257..263][0] == 0x75;
  }

  /** A body record carries exactly one member. */
  lemma BodyRecordExact(rest: bytes, modified: nat, pending: Option<(bytes, nat)>, m: Member, tail: bytes)
    requires |rest| >= BLOCK && PendingOk(pending)
    ensures
      var pax := if pending.None? then None else Some(pending.value.0);
      var record := ReadRecord(rest, modified, pax);
      && record.Some? && record.value.memberType != XHDTYPE && record.value.tail == tail
      && m == (if pending.None? then Member(record.value.name, record.value.data, 0)
               else Member(pending.value.0, record.value.data, pending.value.1))
      && |m.data| <= MAX_MEMBER_BYTES
      <==>
      && MemberOk(m, modified) && (pending.None? <==> !NeedsPax(m.path))
      && (pending.Some? ==> m.path == pending.value.0 && m.paxLength == pending.value.1)
      && rest == BodyImage(m.path, m.data, modified) + tail
  {
    hide CanonicalHeader, ValidUtf8, AsciiReplace;
    var pax := if pending.None? then None else Some(pending.value.0);
    var header := rest[..BLOCK];
    var type' := if EndsInSlash(m.path) then DIRTYPE else REGTYPE;
    if ReadRecord(rest, modified, pax).Some? {
      var record := ReadRecord(rest, modified, pax).value;
      RecordExact(rest, modified, pax, record);
      if pending.None? { PlainNameExact(header[..100], record.name); }
    }
    if MemberOk(m, modified) && (pending.None? <==> !NeedsPax(m.path))
       && (pending.Some? ==> m.path == pending.value.0 && m.paxLength == pending.value.1)
       && rest == BodyImage(m.path, m.data, modified) + tail {
      var name := HeaderNameOf(m.path);
      BodyBytes(rest, m, modified, tail);
      HeaderCarriesName(m.path, |m.data|, modified, pax);
      RecordExact(rest, modified, pax, TarRecord(name, m.data, type', tail));
    }
  }

  lemma BodyBytes(rest: bytes, m: Member, modified: nat, tail: bytes)
    requires TextPath(m.path) && rest == BodyImage(m.path, m.data, modified) + tail
    ensures |rest| >= BLOCK && rest[..BLOCK] == BodyHeader(m.path, |m.data|, modified)
    ensures rest == rest[..BLOCK] + Blocked(m.data) + tail
  {
    hide CanonicalHeader;
    var header := BodyHeader(m.path, |m.data|, modified);
    assert |header| == BLOCK;
    assert rest == header + Blocked(m.data) + tail;
  }

  /** The name field of a member's header reads back as the name it was made from. */
  lemma HeaderCarriesName(path: bytes, size: nat, modified: nat, pax: Option<bytes>)
    requires TextPath(path) && path != [] && (NeedsPax(path) ==> pax == Some(path))
    requires !NeedsPax(path) ==> pax == None && 0 !in path
    ensures HeaderName(BodyHeader(path, size, modified)[..100], pax) == Some(HeaderNameOf(path))
  {
    hide AsciiReplace, ValidUtf8;
    var name := HeaderNameOf(path);
    var memberType := if EndsInSlash(path) then DIRTYPE else REGTYPE;
    var mode := if EndsInSlash(path) then DIRECTORY_MODE else FILE_MODE;
    HeaderField(name, mode, size, modified, memberType);
    if !NeedsPax(path) {
      PlainNameExact(Padded(name, NAME_WIDTH), name);
    }
  }

  lemma HeaderField(name: bytes, mode: nat, size: nat, modified: nat, memberType: byte)
    requires |name| <= NAME_WIDTH
    ensures CanonicalHeader(name, mode, size, modified, memberType)[..100] == Padded(name, NAME_WIDTH)
  {
    hide Octal, Sum;
    FrontExact(Front(name, mode, size, modified), name, mode, size, modified);
    var h := CanonicalHeader(name, mode, size, modified, memberType);
    assert h[..148] == Front(name, mode, size, modified);
    assert h[..100] == h[..148][..100];
  }

  /** The header in front of a path record. */
  function PaxHeader(length: nat): (header: bytes)
    ensures |header| == BLOCK
  {
    CanonicalHeader(PAX_NAME, 0, length, 0, XHDTYPE)
  }

  lemma PaxHeaderName(length: nat)
    ensures HeaderName(PaxHeader(length)[..100], None) == Some(PAX_NAME)
  {
    hide CanonicalHeader;
    HeaderField(PAX_NAME, 0, length, 0, XHDTYPE);
    PlainNameExact(Padded(PAX_NAME, NAME_WIDTH), PAX_NAME);
  }

  lemma PaxRead(rest: bytes, modified: nat, path: bytes)
    requires |rest| >= BLOCK
    requires var record := ReadRecord(rest, modified, None);
      record.Some? && record.value.memberType == XHDTYPE && PathOf(record.value.data) == Some(path)
    ensures var record := ReadRecord(rest, modified, None).value;
      rest == PaxImage(path, |record.data|) + record.tail && PathPayload(record.data, path)
  {
    hide CanonicalHeader, ReadRecord, PathOf, PathPayload;
    var record := ReadRecord(rest, modified, None).value;
    RecordExact(rest, modified, None, record);
    PathOfExact(record.data, path);
    assert rest[..BLOCK] == PaxHeader(|record.data|);
    assert record.data == Record(|record.data|, PATH_KEY, path) by { PathText(record.data, path); }
  }

  lemma PathText(payload: bytes, path: bytes)
    requires PathPayload(payload, path)
    ensures payload == Record(|payload|, PATH_KEY, path)
  {
  }

  lemma PaxWritten(rest: bytes, modified: nat, path: bytes, length: nat, tail: bytes)
    requires PendingOk(Some((path, length))) && rest == PaxImage(path, length) + tail
    ensures |rest| >= BLOCK
      && ReadRecord(rest, modified, None) == Some(TarRecord(PAX_NAME, Record(length, PATH_KEY, path), XHDTYPE, tail))
      && PathOf(Record(length, PATH_KEY, path)) == Some(path) && |Record(length, PATH_KEY, path)| == length
  {
    hide CanonicalHeader, ReadRecord, PathOf, ValidUtf8, Dec;
    var data := Record(length, PATH_KEY, path);
    assert |data| == length;
    assert rest == PaxHeader(length) + Blocked(data) + tail;
    assert rest[..BLOCK] == PaxHeader(length);
    PaxHeaderName(length);
    RecordExact(rest, modified, None, TarRecord(PAX_NAME, data, XHDTYPE, tail));
    PathOfExact(data, path);
  }

  lemma SplitFirst(rest: bytes, head: bytes, ms: seq<Member>, modified: nat)
    requires MembersOk(ms, modified) && |head| <= |rest|
    requires rest[..|head|] == head
    ensures var tail := rest[|head|..]; var image := Images(ms, modified);
      (&& |head + image| + 1_024 <= |rest| < |head + image| + 1_024 + CONTAINER
       && rest == head + image + Zeros(|rest| - |head + image|))
      <==>
      (&& |image| + 1_024 <= |tail| < |image| + 1_024 + CONTAINER
       && tail == image + Zeros(|tail| - |image|))
  {
    var tail, image := rest[|head|..], Images(ms, modified);
    assert rest == head + tail;
    if |head + image| <= |rest| {
      var zeros := Zeros(|rest| - |head + image|);
      assert head + image + zeros == head + (image + zeros);
      ConcatSplits(rest, |head|, head, image + zeros);
    }
  }

  lemma EmptyLeftOver(rest: bytes, modified: nat, count: nat, total: nat)
    ensures LeftOver(rest, [], modified, None, count, total) <==> EndsArchive(rest)
  {
    AllZeroIsZeros(rest);
    assert [] + Zeros(|rest|) == Zeros(|rest|);
  }

  /** What the loop accepts is the canonical encoding of what it returns. */
  lemma {:induction false} LayoutSound(rest: bytes, modified: nat, pending: Option<(bytes, nat)>, count: nat, total: nat)
    requires PendingOk(pending) && ParseLayout(rest, modified, pending, count, total).Some?
    ensures LeftOver(rest, ParseLayout(rest, modified, pending, count, total).value, modified, pending, count, total)
    decreases |rest|
  {
    hide ReadRecord, PathOf, BodyImage, PaxImage, MemberOk, ValidUtf8, FixedPoint;
    var ms := ParseLayout(rest, modified, pending, count, total).value;
    if AllZero(rest[..BLOCK]) {
      EmptyLeftOver(rest, modified, count, total);
    } else {
      var record := ReadRecord(rest, modified, if pending.None? then None else Some(pending.value.0)).value;
      if record.memberType == XHDTYPE {
        var path := PathOf(record.data).value;
        PaxRead(rest, modified, path);
        var next := Some((path, |record.data|));
        assert PendingOk(next) by { PathPending(record.data, path); }
        LayoutSound(record.tail, modified, next, count, total);
        PaxThenBody(rest, ms, modified, next.value, count, total);
      } else {
        var m := ms[0];
        BodyRecordExact(rest, modified, pending, m, record.tail);
        LayoutSound(record.tail, modified, None, count + 1, total + |record.data|);
        BodyThenRest(rest, ms, modified, pending, count, total);
      }
    }
  }

  lemma PathPending(payload: bytes, path: bytes)
    requires PathPayload(payload, path) && NeedsPax(path) && |payload| <= MAX_PAX_HEADER_BYTES
    ensures PendingOk(Some((path, |payload|)))
  {
  }

  /** Putting an extended header in front of the member it announces. */
  lemma PaxThenBody(rest: bytes, ms: seq<Member>, modified: nat, pending: (bytes, nat), count: nat, total: nat)
    requires PendingOk(Some(pending))
    requires var image := PaxImage(pending.0, pending.1);
      && |image| <= |rest| && rest[..|image|] == image
      && LeftOver(rest[|image|..], ms, modified, Some(pending), count, total)
    ensures LeftOver(rest, ms, modified, None, count, total)
  {
    hide BodyImage, PaxImage, MemberOk, ValidUtf8, FixedPoint;
    var image := PaxImage(pending.0, pending.1);
    var tail := rest[|image|..];
    var body := BodyImage(ms[0].path, ms[0].data, modified) + Images(ms[1..], modified);
    assert Images(ms, modified) == image + body by {
      assert image + BodyImage(ms[0].path, ms[0].data, modified) + Images(ms[1..], modified) == image + body;
    }
    assert rest == image + tail;
    assert rest == image + body + Zeros(|tail| - |body|);
  }

  lemma MembersOkMore(ms: seq<Member>, modified: nat)
    requires ms != [] && MemberOk(ms[0], modified) && MembersOk(ms[1..], modified)
    ensures MembersOk(ms, modified)
  {
    hide MemberOk;
    assert ms == [ms[0]] + ms[1..];
  }

  lemma NoPax(m: Member, modified: nat)
    requires MemberOk(m, modified) && !NeedsPax(m.path)
    ensures MemberImage(m, modified) == BodyImage(m.path, m.data, modified)
  {
    hide BodyImage;
    assert [] + BodyImage(m.path, m.data, modified) == BodyImage(m.path, m.data, modified);
  }

  lemma BodyThenRest(rest: bytes, ms: seq<Member>, modified: nat, pending: Option<(bytes, nat)>, count: nat, total: nat)
    requires ms != [] && MemberOk(ms[0], modified) && (pending.None? <==> !NeedsPax(ms[0].path))
    requires pending.Some? ==> ms[0].path == pending.value.0 && ms[0].paxLength == pending.value.1
    requires WithinBudget(count + 1, |ms[0].data|, total)
    requires var image := BodyImage(ms[0].path, ms[0].data, modified);
      && |image| <= |rest| && rest[..|image|] == image
      && LeftOver(rest[|image|..], ms[1..], modified, None, count + 1, total + |ms[0].data|)
    ensures LeftOver(rest, ms, modified, pending, count, total)
  {
    hide BodyImage, PaxImage, ValidUtf8, FixedPoint;
    var image := BodyImage(ms[0].path, ms[0].data, modified);
    var tail := rest[|image|..];
    MembersOkMore(ms, modified);
    if pending.None? { NoPax(ms[0], modified); }
    assert ms[1..] == [] ==> TotalSize(ms[1..]) == 0;
    assert Remaining(ms, modified, pending) == image + Images(ms[1..], modified);
    assert rest == image + tail;
    assert rest == image + Images(ms[1..], modified) + Zeros(|tail| - |Images(ms[1..], modified)|);
  }

  /** The loop accepts every canonical encoding, and returns its members. */
  lemma {:induction false} LayoutComplete(rest: bytes, ms: seq<Member>, modified: nat, pending: Option<(bytes, nat)>, count: nat, total: nat)
    requires PendingOk(pending) && LeftOver(rest, ms, modified, pending, count, total)
    ensures ParseLayout(rest, modified, pending, count, total) == Some(ms)
    decreases |rest|
  {
    hide ReadRecord, PathOf, BodyImage, PaxImage, MemberOk, ValidUtf8, FixedPoint;
    if ms == [] {
      EmptyLeftOver(rest, modified, count, total);
      assert AllZero(rest[..BLOCK]);
    } else if pending.None? && NeedsPax(ms[0].path) {
      var next := (ms[0].path, ms[0].paxLength);
      assert PendingOk(Some(next)) by { MemberPending(ms[0], modified); }
      var tail := PaxSplit(rest, ms, modified, count, total);
      PaxWritten(rest, modified, next.0, next.1, tail);
      PaxNotZero(rest, next.0, next.1, tail);
      LayoutComplete(tail, ms, modified, Some(next), count, total);
    } else {
      var tail := BodySplit(rest, ms, modified, pending, count, total);
      BodyRecordExact(rest, modified, pending, ms[0], tail);
      BodyNotZero(rest, ms[0], modified, tail);
      LayoutComplete(tail, ms[1..], modified, None, count + 1, total + |ms[0].data|);
      assert ms == [ms[0]] + ms[1..];
    }
  }

  lemma MemberPending(m: Member, modified: nat)
    requires MemberOk(m, modified) && NeedsPax(m.path)
    ensures PendingOk(Some((m.path, m.paxLength)))
  {
  }

  lemma PaxNotZero(rest: bytes, path: bytes, length: nat, tail: bytes)
    requires rest == PaxImage(path, length) + tail
    ensures |rest| >= BLOCK && !AllZero(rest[..BLOCK])
  {
    hide CanonicalHeader;
    assert rest == PaxHeader(length) + (Blocked(Record(length, PATH_KEY, path)) + tail);
    assert rest[..BLOCK] == PaxHeader(length);
    NotZeroBlock(rest[..BLOCK], PAX_NAME, 0, length, 0, XHDTYPE);
  }

  lemma BodyNotZero(rest: bytes, m: Member, modified: nat, tail: bytes)
    requires TextPath(m.path) && rest == BodyImage(m.path, m.data, modified) + tail
    ensures |rest| >= BLOCK && !AllZero(rest[..BLOCK])
  {
    hide CanonicalHeader;
    BodyBytes(rest, m, modified, tail);
    var memberType := if EndsInSlash(m.path) then DIRTYPE else REGTYPE;
    var mode := if EndsInSlash(m.path) then DIRECTORY_MODE else FILE_MODE;
    NotZeroBlock(rest[..BLOCK], HeaderNameOf(m.path), mode, |m.data|, modified, memberType);
  }

  lemma PaxSplit(rest: bytes, ms: seq<Member>, modified: nat, count: nat, total: nat) returns (tail: bytes)
    requires LeftOver(rest, ms, modified, None, count, total) && ms != [] && NeedsPax(ms[0].path)
    ensures rest == PaxImage(ms[0].path, ms[0].paxLength) + tail && |tail| < |rest|
    ensures LeftOver(tail, ms, modified, Some((ms[0].path, ms[0].paxLength)), count, total)
  {
    hide BodyImage, ValidUtf8, CanonicalHeader;
    var image := PaxImage(ms[0].path, ms[0].paxLength);
    assert |image| >= BLOCK;
    var body := BodyImage(ms[0].path, ms[0].data, modified) + Images(ms[1..], modified);
    assert Images(ms, modified) == image + body by {
      assert image + BodyImage(ms[0].path, ms[0].data, modified) + Images(ms[1..], modified) == image + body;
    }
    tail := rest[|image|..];
    assert rest == image + (body + Zeros(|rest| - |image| - |body|));
    assert tail == body + Zeros(|rest| - |image| - |body|);
  }

  lemma BodyImageSize(path: bytes, data: bytes, modified: nat)
    requires TextPath(path)
    ensures |BodyImage(path, data, modified)| >= BLOCK
  {
    hide CanonicalHeader;
  }

  lemma BodySplit(rest: bytes, ms: seq<Member>, modified: nat, pending: Option<(bytes, nat)>, count: nat, total: nat) returns (tail: bytes)
    requires LeftOver(rest, ms, modified, pending, count, total) && ms != []
    requires pending.None? ==> !NeedsPax(ms[0].path)
    ensures rest == BodyImage(ms[0].path, ms[0].data, modified) + tail && |tail| < |rest|
    ensures LeftOver(tail, ms[1..], modified, None, count + 1, total + |ms[0].data|)
  {
    hide ValidUtf8, CanonicalHeader, BodyImage, PaxImage;
    var image := BodyImage(ms[0].path, ms[0].data, modified);
    BodyImageSize(ms[0].path, ms[0].data, modified);
    var later := Images(ms[1..], modified);
    assert [] + image == image;
    assert Remaining(ms, modified, pending) == image + later;
    tail := rest[|image|..];
    assert rest == image + (later + Zeros(|rest| - |image| - |later|));
    assert tail == later + Zeros(|rest| - |image| - |later|);
  }

  /** Container alignment leaves one possible amount of end padding. */
  lemma AlignedEnd(payload: bytes, ms: seq<Member>, modified: nat)
    ensures CanonicalLayout(payload, ms, modified) <==>
      |payload| % CONTAINER == 0 && LeftOver(payload, ms, modified, None, 0, 0)
  {
    hide MemberOk, MemberImage;
    if MembersOk(ms, modified) {
      var image := Images(ms, modified);
      if |image| + 1_024 <= |payload| < |image| + 1_024 + CONTAINER && |payload| % CONTAINER == 0 {
        SameResidue(|image|, |payload| - |image|, EndSize(|image|));
      }
    }
  }

  lemma SameResidue(offset: nat, a: nat, b: nat)
    requires 1_024 <= a < 1_024 + CONTAINER && 1_024 <= b < 1_024 + CONTAINER
    requires (offset + a) % CONTAINER == 0 && (offset + b) % CONTAINER == 0
    ensures a == b
  {
  }

  /** An archive has at most one reading. */
  lemma LayoutUnique(payload: bytes, ms: seq<Member>, ns: seq<Member>, modified: nat)
    requires CanonicalLayout(payload, ms, modified) && CanonicalLayout(payload, ns, modified)
    ensures ms == ns
  {
    hide CanonicalLayout, ParseLayout, LeftOver;
    AlignedEnd(payload, ms, modified);
    AlignedEnd(payload, ns, modified);
    LayoutComplete(payload, ms, modified, None, 0, 0);
    LayoutComplete(payload, ns, modified, None, 0, 0);
  }

  /** The verdict of the whole loop, in terms of the writer's language. */
  lemma LayoutVerdict(payload: bytes, modified: nat)
    ensures |payload| % CONTAINER == 0 && ParseLayout(payload, modified, None, 0, 0).Some?
      <==> exists ms :: CanonicalLayout(payload, ms, modified)
    ensures forall ms :: CanonicalLayout(payload, ms, modified) ==>
      ParseLayout(payload, modified, None, 0, 0) == Some(ms)
  {
    hide CanonicalLayout, ParseLayout, LeftOver;
    if |payload| % CONTAINER == 0 && ParseLayout(payload, modified, None, 0, 0).Some? {
      var ms := ParseLayout(payload, modified, None, 0, 0).value;
      LayoutSound(payload, modified, None, 0, 0);
      AlignedEnd(payload, ms, modified);
    }
    forall ms | CanonicalLayout(payload, ms, modified)
      ensures |payload| % CONTAINER == 0 && ParseLayout(payload, modified, None, 0, 0) == Some(ms)
    {
      AlignedEnd(payload, ms, modified);
      LayoutComplete(payload, ms, modified, None, 0, 0);
    }
  }

  // ---- the verifier ----

  function Extended(done: seq<Member>, rest: Option<seq<Member>>): Option<seq<Member>> {
    if rest.None? then None else Some(done + rest.value)
  }

  /** `_require_canonical_tar_end` */
  function EndProblem(payload: bytes, offset: nat, pendingPax: bool): (problem: Option<string>)
    requires offset + BLOCK <= |payload| && |payload| % CONTAINER == 0 && AllZero(payload[offset..offset + BLOCK])
    ensures problem.None? <==> !pendingPax && EndsArchive(payload[offset..])
  {
    if offset + 1_024 > |payload| || !AllZero(payload[offset + BLOCK..offset + 1_024]) then
      Some("end marker must contain two zero blocks")
    else if !AllZero(payload[offset + 1_024..]) then
      assert payload[offset..][1_024..] == payload[offset + 1_024..];
      Some("tar contains nonzero trailing data")
    else if pendingPax then Some("tar contains an orphan PAX header")
    else
      ThreeZeroParts(payload, offset);
      if |payload| != (offset + 1_024 + 10_239) / CONTAINER * CONTAINER then
        Some("tar contains noncanonical excess zero padding")
      else None
  }

  lemma ThreeZeroParts(payload: bytes, offset: nat)
    requires offset + 1_024 <= |payload|
    requires AllZero(payload[offset..offset + BLOCK]) && AllZero(payload[offset + BLOCK..offset + 1_024])
    requires AllZero(payload[offset + 1_024..])
    ensures AllZero(payload[offset..])
  {
    var a, b, c := payload[offset..offset + BLOCK], payload[offset + BLOCK..offset + 1_024], payload[offset + 1_024..];
    assert payload[offset..] == a + b + c;
    AllZeroConcat(a + b, c);
    AllZeroConcat(a, b);
  }

  /** `_preflight_tar_layout` with an expected modification time: it accepts exactly the
      canonical encodings. */
  method PreflightTarLayout(payload: bytes, expectedMtime: nat) returns (r: Result<()>)
    ensures r.Ok? <==> exists ms :: CanonicalLayout(payload, ms, expectedMtime)
  {
    hide CanonicalLayout, ParseLayout, ReadRecord, PathOf, EndsArchive, ValidUtf8, CheckHeader, HeaderName;
    LayoutVerdict(payload, expectedMtime);
    if |payload| == 0 || |payload| % CONTAINER != 0 {
      EmptyIsNoLayout(expectedMtime);
      return Err("tar container length is noncanonical");
    }
    var offset := 0;
    var pending: Option<(bytes, nat)> := None;
    var memberCount: nat, totalSize: nat := 0, 0;
    ghost var done: seq<Member> := [];
    ghost var target := ParseLayout(payload, expectedMtime, None, 0, 0);
    assert payload[0..] == payload;
    assert target == Extended([], target) by { if target.Some? { assert [] + target.value == target.value; } }
    while offset + BLOCK <= |payload|
      invariant offset <= |payload| && (pending.Some? ==> ValidUtf8(pending.value.0))
      invariant target == Extended(done, ParseLayout(payload[offset..], expectedMtime, pending, memberCount, totalSize))
    {
      ghost var rest := payload[offset..];
      var header := payload[offset..offset + BLOCK];
      assert rest[..BLOCK] == header;
      if AllZero(header) {
        var problem := EndProblem(payload, offset, pending.Some?);
        EndStep(rest, expectedMtime, pending, memberCount, totalSize);
        return if problem.None? then Ok(()) else Err(problem.value);
      }
      var paxPath := if pending.None? then None else Some(pending.value.0);
      var record := ReadRecord(payload[offset..], expectedMtime, paxPath);
      if record.None? {
        RecordStep(rest, expectedMtime, pending, memberCount, totalSize);
        return Err("tar record is noncanonical");
      }
      var data := record.value.data;
      var next := |payload| - |record.value.tail|;
      TailOf(payload, offset, expectedMtime, paxPath);
      if record.value.memberType == XHDTYPE {
        var path := PaxHeaderPath(data, pending.Some?);
        PaxStep(rest, expectedMtime, pending, memberCount, totalSize);
        if path.Err? {
          return Err(path.reason);
        }
        pending := Some((path.value, |data|));
      } else {
        BodyStep(rest, expectedMtime, pending, memberCount, totalSize);
        if !WithinBudget(memberCount + 1, |data|, totalSize) {
          return Err("tar exceeds its member budget");
        }
        ghost var m := MemberOf(record.value, pending);
        ghost var later := ParseLayout(record.value.tail, expectedMtime, None, memberCount + 1, totalSize + |data|);
        assert target == Extended(done + [m], later) by {
          if later.Some? { assert done + ([m] + later.value) == done + [m] + later.value; }
        }
        done := done + [m];
        memberCount, totalSize, pending := memberCount + 1, totalSize + |data|, None;
      }
      offset := next;
    }
    ShortStep(payload[offset..], expectedMtime, pending, memberCount, totalSize);
    return Err("tar is missing its canonical end marker");
  }

  lemma EmptyIsNoLayout(modified: nat)
    ensures ParseLayout([], modified, None, 0, 0) == None
  {
  }

  function MemberOf(record: TarRecord, pending: Option<(bytes, nat)>): Member {
    if pending.None? then Member(record.name, record.data, 0)
    else Member(pending.value.0, record.data, pending.value.1)
  }

  /** The extended-header branch of the loop. */
  method PaxHeaderPath(data: bytes, chained: bool) returns (r: Result<bytes>)
    ensures r.Ok? <==> !chained && |data| <= MAX_PAX_HEADER_BYTES && PathOf(data).Some?
    ensures r.Ok? ==> PathOf(data) == Some(r.value)
  {
    hide ParseLax, ValidUtf8;
    if chained {
      return Err("tar contains chained PAX headers");
    }
    if |data| > MAX_PAX_HEADER_BYTES {
      return Err("PAX header exceeds its size limit");
    }
    var records := ParsePaxRecords(data);
    if records.Err? {
      return Err(records.reason);
    }
    var path := records.value.path;
    if records.value.mtime.Some? || path.None? || !NeedsPax(path.value) {
      return Err("PAX payload is noncanonical");
    }
    return Ok(path.value);
  }

  lemma TailOf(payload: bytes, offset: nat, modified: nat, paxPath: Option<bytes>)
    requires offset + BLOCK <= |payload| && (paxPath.Some? ==> ValidUtf8(paxPath.value))
    requires ReadRecord(payload[offset..], modified, paxPath).Some?
    ensures var tail := ReadRecord(payload[offset..], modified, paxPath).value.tail;
      |tail| < |payload| - offset && tail == payload[|payload| - |tail|..]
  {
    hide CheckHeader, HeaderName;
  }

  lemma EndStep(rest: bytes, modified: nat, pending: Option<(bytes, nat)>, count: nat, total: nat)
    requires |rest| >= BLOCK && AllZero(rest[..BLOCK]) && (pending.Some? ==> ValidUtf8(pending.value.0))
    ensures ParseLayout(rest, modified, pending, count, total)
      == if pending.None? && EndsArchive(rest) then Some([]) else None
  {
  }

  lemma ShortStep(rest: bytes, modified: nat, pending: Option<(bytes, nat)>, count: nat, total: nat)
    requires |rest| < BLOCK && (pending.Some? ==> ValidUtf8(pending.value.0))
    ensures ParseLayout(rest, modified, pending, count, total) == None
  {
  }

  lemma RecordStep(rest: bytes, modified: nat, pending: Option<(bytes, nat)>, count: nat, total: nat)
    requires |rest| >= BLOCK && !AllZero(rest[..BLOCK]) && (pending.Some? ==> ValidUtf8(pending.value.0))
    requires ReadRecord(rest, modified, if pending.None? then None else Some(pending.value.0)).None?
    ensures ParseLayout(rest, modified, pending, count, total) == None
  {
  }

  lemma PaxStep(rest: bytes, modified: nat, pending: Option<(bytes, nat)>, count: nat, total: nat)
    requires |rest| >= BLOCK && !AllZero(rest[..BLOCK]) && (pending.Some? ==> ValidUtf8(pending.value.0))
    requires var record := ReadRecord(rest, modified, if pending.None? then None else Some(pending.value.0));
      record.Some? && record.value.memberType == XHDTYPE
    ensures
      var record := ReadRecord(rest, modified, if pending.None? then None else Some(pending.value.0)).value;
      var path := PathOf(record.data);
      ParseLayout(rest, modified, pending, count, total)
      == if pending.Some? || |record.data| > MAX_PAX_HEADER_BYTES || path.None? then None
         else ParseLayout(record.tail, modified, Some((path.value, |record.data|)), count, total)
  {
    hide ReadRecord, PathOf;
  }

  lemma BodyStep(rest: bytes, modified: nat, pending: Option<(bytes, nat)>, count: nat, total: nat)
    requires |rest| >= BLOCK && !AllZero(rest[..BLOCK]) && (pending.Some? ==> ValidUtf8(pending.value.0))
    requires var record := ReadRecord(rest, modified, if pending.None? then None else Some(pending.value.0));
      record.Some? && record.value.memberType != XHDTYPE
    ensures
      var record := ReadRecord(rest, modified, if pending.None? then None else Some(pending.value.0)).value;
      ParseLayout(rest, modified, pending, count, total)
      == if !WithinBudget(count + 1, |record.data|, total) then None
         else Prepended(MemberOf(record, pending),
                ParseLayout(record.tail, modified, None, count + 1, total + |record.data|))
  {
    hide ReadRecord, PathOf;
  }
}
