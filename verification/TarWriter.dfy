/** The canonical tar writer, and the round trip through the release verifier. */
module TarWriter {
  import opened Outcomes
  import opened Bytes
  import opened Sorting
  import opened Text
  import opened Pax
  import opened TarHeader
  import opened Tar
  import opened ReleaseContract

  /** A file with its contents, or a directory. */
  datatype TarEntry = TarEntry(name: bytes, payload: Option<bytes>)

  predicate ByName(a: TarEntry, b: TarEntry) {
    LexLess(a.name, b.name)
  }

  function EntryPath(e: TarEntry): bytes {
    if e.payload.None? then e.name + [SLASH] else e.name
  }

  function EntryData(e: TarEntry): bytes {
    if e.payload.None? then [] else e.payload.value
  }

  /** The member the writer makes of an entry. */
  function EntryMember(e: TarEntry): Member {
    var path := EntryPath(e);
    Member(path, EntryData(e), if NeedsPax(path) then PaxLength(RecordBody(PATH_KEY, path)) else 0)
  }

  function EntryMembers(entries: seq<TarEntry>): (ms: seq<Member>)
    ensures |ms| == |entries|
    ensures forall i :: 0 <= i < |ms| ==> ms[i] == EntryMember(entries[i])
  {
    seq(|entries|, i requires 0 <= i < |entries| => EntryMember(entries[i]))
  }

  predicate TextNames(entries: seq<TarEntry>) {
    forall i :: 0 <= i < |entries| ==> ValidUtf8(entries[i].name)
  }

  lemma PathIsText(e: TarEntry)
    requires ValidUtf8(e.name)
    ensures ValidUtf8(EntryPath(e))
  {
    var slash: bytes := [SLASH];
    assert slash[1..] == [];
    Utf8Concat(e.name, slash);
  }

  /** The entry can be written: every field of its headers fits. */
  predicate Writable(e: TarEntry, timestamp: nat) {
    var m := EntryMember(e);
    m.path != [] && timestamp < SIZE_LIMIT && |m.data| < SIZE_LIMIT && m.paxLength < SIZE_LIMIT
  }

  /** The bytes of one entry: the extended header when its path needs one, then the member. */
  function EntryImage(e: TarEntry, timestamp: nat): bytes
    requires ValidUtf8(e.name)
  {
    PathIsText(e);
    var m := EntryMember(e);
    var directory := e.payload.None?;
    (if NeedsPax(m.path) then PaxImage(m.path, m.paxLength) else [])
    + CanonicalHeader(HeaderNameOf(m.path), if directory then DIRECTORY_MODE else FILE_MODE, |m.data|, timestamp,
                      if directory then DIRTYPE else REGTYPE)
    + Blocked(m.data)
  }

  /** The loop body of `_canonical_tar_payload`. */
  method EncodeEntry(entry: TarEntry, timestamp: nat) returns (r: Result<bytes>)
    requires ValidUtf8(entry.name)
    ensures r.Ok? <==> Writable(entry, timestamp)
    ensures r.Ok? ==> r.value == EntryImage(entry, timestamp)
  {
    hide CanonicalHeader, ValidUtf8, AsciiReplace, Dec;
    var path := EntryPath(entry);
    PathIsText(entry);
    var output: bytes := [];
    var encodedName := path;
    if NeedsPax(path) {
      var paxPayload := PaxPathRecord(path);
      assert |paxPayload| == PaxLength(RecordBody(PATH_KEY, path));
      var paxHeader := CanonicalTarHeader(PAX_NAME, 0, |paxPayload|, 0, XHDTYPE);
      if paxHeader.Err? {
        return paxHeader;
      }
      output := paxHeader.value + paxPayload + Zeros(RoundUp(|paxPayload|) - |paxPayload|);
      assert output == PaxImage(path, |paxPayload|);
      encodedName := BaseName(path, NAME_WIDTH);
    }
    EmptyNames(path);
    var payload := EntryData(entry);
    var directory := entry.payload.None?;
    var header := CanonicalTarHeader(encodedName, if directory then DIRECTORY_MODE else FILE_MODE,
                                     |payload|, timestamp, if directory then DIRTYPE else REGTYPE);
    if header.Err? {
      return header;
    }
    output := output + header.value + payload + Zeros(RoundUp(|payload|) - |payload|);
    return Ok(output);
  }

  lemma EmptyNames(path: bytes)
    requires TextPath(path)
    ensures HeaderNameOf(path) == [] <==> path == []
  {
  }

  function EntriesImage(entries: seq<TarEntry>, timestamp: nat): bytes
    requires TextNames(entries)
  {
    if entries == [] then [] else EntryImage(entries[0], timestamp) + EntriesImage(entries[1..], timestamp)
  }

  /** The tar of entries in this order. */
  function EntriesTar(entries: seq<TarEntry>, timestamp: nat): bytes
    requires TextNames(entries)
  {
    var image := EntriesImage(entries, timestamp);
    image + Zeros(EndSize(|image|))
  }

  lemma SortedNames(entries: seq<TarEntry>)
    requires TextNames(entries)
    ensures TextNames(Sort(entries, ByName))
  {
    var ordered := Sort(entries, ByName);
    SortMembers(entries, ByName);
    forall i | 0 <= i < |ordered|
      ensures ValidUtf8(ordered[i].name)
    {
      assert ordered[i] in ordered;
    }
  }

  /** `_canonical_tar_payload` */
  method CanonicalTarPayload(entries: seq<TarEntry>, timestamp: nat) returns (r: Result<bytes>)
    requires TextNames(entries)
    ensures TextNames(Sort(entries, ByName))
    ensures r.Ok? <==> forall e :: e in entries ==> Writable(e, timestamp)
    ensures r.Ok? ==> r.value == EntriesTar(Sort(entries, ByName), timestamp)
  {
    hide EntryImage, Writable, ValidUtf8;
    SortedNames(entries);
    SortMembers(entries, ByName);
    var ordered := Sort(entries, ByName);
    var output: bytes := [];
    var index := 0;
    while index < |ordered|
      invariant index <= |ordered|
      invariant output + EntriesImage(ordered[index..], timestamp) == EntriesImage(ordered, timestamp)
      invariant forall i :: 0 <= i < index ==> Writable(ordered[i], timestamp)
    {
      var entry := EncodeEntry(ordered[index], timestamp);
      if entry.Err? {
        assert ordered[index] in entries;
        return entry;
      }
      var rest := ordered[index..];
      assert rest[0] == ordered[index] && rest[1..] == ordered[index + 1..];
      assert output + (entry.value + EntriesImage(rest[1..], timestamp))
          == output + entry.value + EntriesImage(rest[1..], timestamp);
      output := output + entry.value;
      index := index + 1;
    }
    assert output == EntriesImage(ordered, timestamp) by {
      assert ordered[index..] == [];
      assert output + [] == output;
    }
    var padding := EndSize(|output|) - 1_024;
    assert Zeros(1_024) + Zeros(padding) == Zeros(EndSize(|output|));
    output := output + (Zeros(1_024) + Zeros(padding));
    return Ok(output);
  }

  // ---- round trip ----

  /** Entries that pass the checks on names, counts and sizes. */
  ghost predicate SafeEntries(entries: seq<TarEntry>, policy: NamePolicy, timestamp: nat) {
    && (forall i :: 0 <= i < |entries| ==> SafeEntry(entries[i], policy))
    && |entries| <= MAX_ARCHIVE_MEMBERS && EntriesSize(entries) <= MAX_TOTAL_BYTES && timestamp < 0x1_0000_0000
  }

  ghost predicate SafeEntry(e: TarEntry, policy: NamePolicy) {
    SafeName(e.name, policy) && |EntryData(e)| <= MAX_MEMBER_BYTES
  }

  function EntriesSize(entries: seq<TarEntry>): nat {
    if entries == [] then 0 else |EntryData(entries[0])| + EntriesSize(entries[1..])
  }

  /** The extended header of a path of bounded length stays small. */
  lemma PaxLengthBound(body: nat)
    requires body >= 2
    ensures PaxLength(body) <= 2 * body
  {
    var length := PaxLength(body);
    DigitHalf(length);
  }

  /** A safe entry becomes a member the verifier accepts, and the entry can be read off it. */
  lemma SafeEntryMember(e: TarEntry, policy: NamePolicy, timestamp: nat)
    requires SafeEntry(e, policy) && timestamp < 0x1_0000_0000
    ensures MemberOk(EntryMember(e), timestamp) && Writable(e, timestamp)
    ensures EndsInSlash(EntryMember(e).path) <==> e.payload.None?
    ensures EntryImage(e, timestamp) == MemberImage(EntryMember(e), timestamp)
    ensures LeastFixedPoint(EntryMember(e).paxLength, RecordBody(PATH_KEY, EntryPath(e))) || !NeedsPax(EntryPath(e))
    ensures NEWLINE !in EntryPath(e)
  {
    hide CanonicalHeader, ValidUtf8, AsciiReplace, Dec, SafeReleaseName, SafeName, PaxImage, HeaderNameOf, Blocked, PaxLength, NeedsPax;
    SafePath(e, policy);
    SafeIsText(e, policy);
    PathIsText(e);
    PaxLengthFixed(e);
  }

  lemma SafePath(e: TarEntry, policy: NamePolicy)
    requires SafeEntry(e, policy)
    ensures var path := EntryPath(e);
      && path != [] && (EndsInSlash(path) <==> e.payload.None?) && 0 !in path && NEWLINE !in path
      && RecordBody(PATH_KEY, path) <= 4096
  {
    hide ValidUtf8, SafeReleaseName, SafeName;
    SafeBytes(e.name, policy);
    assert forall i :: 0 <= i < |EntryPath(e)| ==> EntryPath(e)[i] >= 32;
  }

  lemma PaxLengthFixed(e: TarEntry)
    requires RecordBody(PATH_KEY, EntryPath(e)) <= 4096
    ensures var n := PaxLength(RecordBody(PATH_KEY, EntryPath(e)));
      LeastFixedPoint(n, RecordBody(PATH_KEY, EntryPath(e))) && n <= MAX_PAX_HEADER_BYTES && n < SIZE_LIMIT
  {
    PaxLengthBound(RecordBody(PATH_KEY, EntryPath(e)));
  }

  lemma {:induction false} ImagesAgree(entries: seq<TarEntry>, policy: NamePolicy, timestamp: nat)
    requires timestamp < 0x1_0000_0000 && forall i :: 0 <= i < |entries| ==> SafeEntry(entries[i], policy)
    ensures TextNames(entries) && MembersOk(EntryMembers(entries), timestamp)
    ensures EntriesImage(entries, timestamp) == Images(EntryMembers(entries), timestamp)
    ensures TotalSize(EntryMembers(entries)) == EntriesSize(entries)
  {
    hide SafeEntry, MemberOk, EntryImage, MemberImage, ValidUtf8;
    forall i | 0 <= i < |entries| ensures ValidUtf8(entries[i].name) && MemberOk(EntryMembers(entries)[i], timestamp) {
      SafeEntryMember(entries[i], policy, timestamp);
      SafeIsText(entries[i], policy);
    }
    if entries != [] {
      ImagesAgree(entries[1..], policy, timestamp);
      SafeEntryMember(entries[0], policy, timestamp);
      assert EntryMembers(entries)[1..] == EntryMembers(entries[1..]);
    }
  }

  lemma SafeIsText(e: TarEntry, policy: NamePolicy)
    requires SafeEntry(e, policy)
    ensures ValidUtf8(e.name)
  {
  }

  /** Ordering entries keeps their number and their sizes. */
  lemma {:induction false} SizeOfInsert(e: TarEntry, entries: seq<TarEntry>)
    ensures EntriesSize(Insert(e, entries, ByName)) == |EntryData(e)| + EntriesSize(entries)
  {
    if entries != [] && ByName(entries[0], e) {
      SizeOfInsert(e, entries[1..]);
    }
  }

  lemma {:induction false} SizeOfSort(entries: seq<TarEntry>)
    ensures EntriesSize(Sort(entries, ByName)) == EntriesSize(entries)
  {
    if entries != [] {
      SizeOfSort(entries[1..]);
      SizeOfInsert(entries[0], Sort(entries[1..], ByName));
    }
  }

  lemma SortedSafe(entries: seq<TarEntry>, policy: NamePolicy, timestamp: nat)
    requires SafeEntries(entries, policy, timestamp)
    ensures SafeEntries(Sort(entries, ByName), policy, timestamp)
  {
    hide SafeEntry, Sort;
    var ordered := Sort(entries, ByName);
    SortMembers(entries, ByName);
    SortKeeps(entries, ByName);
    SizeOfSort(entries);
    forall i | 0 <= i < |ordered|
      ensures SafeEntry(ordered[i], policy)
    {
      assert ordered[i] in ordered;
    }
  }

  /** Round trip: the tar of safe entries is a canonical layout, whose only reading is the
      entries sorted by name. */
  lemma WriterRoundTrip(entries: seq<TarEntry>, policy: NamePolicy, timestamp: nat)
    requires SafeEntries(entries, policy, timestamp)
    ensures TextNames(Sort(entries, ByName))
    ensures forall ms ::
      (CanonicalLayout(EntriesTar(Sort(entries, ByName), timestamp), ms, timestamp)
       <==> ms == EntryMembers(Sort(entries, ByName)))
  {
    hide SafeEntry, Images, EntriesImage, MemberOk;
    var ordered := Sort(entries, ByName);
    SortedSafe(entries, policy, timestamp);
    ImagesAgree(ordered, policy, timestamp);
    var ms := EntryMembers(ordered);
    assert CanonicalLayout(EntriesTar(ordered, timestamp), ms, timestamp);
    forall ns | CanonicalLayout(EntriesTar(ordered, timestamp), ns, timestamp)
      ensures ns == ms
    {
      LayoutUnique(EntriesTar(ordered, timestamp), ms, ns, timestamp);
    }
  }

  /** The one freedom an accepted archive has over the writer's output: a path record whose
      text has 10^k - k - 1 bytes may announce the longer of the two lengths that fit. */
  lemma OnlyLengthSpellingIsFree(payload: bytes, ms: seq<Member>, timestamp: nat, i: nat)
    requires CanonicalLayout(payload, ms, timestamp) && i < |ms| && NeedsPax(ms[i].path)
    ensures var body := RecordBody(PATH_KEY, ms[i].path); var k := |Dec(PaxLength(body))|;
      || ms[i].paxLength == PaxLength(body)
      || (ms[i].paxLength == PaxLength(body) + 1 == Pow(10, k) && body + k + 1 == Pow(10, k))
  {
    assert MemberOk(ms[i], timestamp);
    var body := RecordBody(PATH_KEY, ms[i].path);
    LengthUnique(ms[i].paxLength, PaxLength(body), body);
    if ms[i].paxLength != PaxLength(body) {
      TwoLengths(PaxLength(body), ms[i].paxLength, body);
    }
  }
}
