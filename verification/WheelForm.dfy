/** When a wheel has a canonical form: the budgets make every packed field fit, names and order
    come out right, and what is left is the size of the container and its end record. */
module WheelForm {
  import opened Outcomes
  import opened Bytes
  import opened Crc
  import opened Sorting
  import opened Struct
  import opened Sums
  import opened Text
  import opened ReleaseContract
  import opened Wheel
  import opened WheelRecords
  import opened WheelCanonical

  function PayloadSize(e: WheelEntry): nat {
    |e.payload|
  }

  /** The budgets over entries. */
  predicate SizesOk(entries: seq<WheelEntry>) {
    && |entries| <= MAX_ARCHIVE_MEMBERS && SumOf(entries, PayloadSize) <= MAX_TOTAL_BYTES
    && forall i :: 0 <= i < |entries| ==> |entries[i].payload| <= MAX_MEMBER_BYTES
  }

  ghost predicate AllSafe(entries: seq<WheelEntry>, policy: NamePolicy) {
    forall i :: 0 <= i < |entries| ==> SafeName(entries[i].name, policy)
  }

  predicate AliasesApart(entries: seq<WheelEntry>, policy: NamePolicy) {
    forall i, j :: 0 <= i < j < |entries| ==> Alias(entries[i].name, policy) != Alias(entries[j].name, policy)
  }

  /** A file is where another entry needs a directory. */
  predicate FileIsDirectory(entries: seq<WheelEntry>, policy: NamePolicy) {
    exists i, j :: 0 <= i < |entries| && 0 <= j < |entries| && ProperPrefix(Alias(entries[i].name, policy), Alias(entries[j].name, policy))
  }

  predicate InOrder(entries: seq<WheelEntry>) {
    forall i, j :: 0 <= i < j < |entries| ==> !LexLess(entries[j].name, entries[i].name)
  }

  predicate StampOk(stamp: Stamp) {
    stamp.time < 0x1_0000 && stamp.date < 0x1_0000
  }

  // ---- what the directory says, in terms of the entries ----

  lemma {:induction false} InfosAt(entries: seq<WheelEntry>, stamp: Stamp, offset: nat, i: nat)
    requires i < |entries|
    ensures var info := InfosOf(entries, stamp, offset)[i];
      info.safe == entries[i].name && info.size == |entries[i].payload| && info.compression == STORED
    decreases |entries|
  {
    hide LocalImage;
    if i > 0 {
      InfosAt(entries[1..], stamp, offset + |LocalImage(entries[0], stamp)|, i - 1);
    }
  }

  lemma {:induction false} SizesFront(info: ZipInfo, infos: seq<ZipInfo>)
    ensures InfoSizes([info] + infos) == info.size + InfoSizes(infos)
    decreases |infos|
  {
    var all := [info] + infos;
    if infos == [] {
      assert all[..0] == [];
    } else {
      var n := |infos| - 1;
      assert all[..n + 1] == [info] + infos[..n];
      SizesFront(info, infos[..n]);
    }
  }

  lemma {:induction false} SizesAre(entries: seq<WheelEntry>, stamp: Stamp, offset: nat)
    ensures InfoSizes(InfosOf(entries, stamp, offset)) == SumOf(entries, PayloadSize)
    decreases |entries|
  {
    hide LocalImage, InfoSizes;
    if entries == [] {
      NoSizes();
    } else {
      var next := offset + |LocalImage(entries[0], stamp)|;
      SizesAre(entries[1..], stamp, next);
      SizesFront(InfoOf(entries[0], offset), InfosOf(entries[1..], stamp, next));
    }
  }

  lemma NoSizes()
    ensures InfoSizes([]) == 0
  {
  }

  lemma InfosAre(entries: seq<WheelEntry>, stamp: Stamp, policy: NamePolicy)
    ensures DirectoryOk(InfosOf(entries, stamp, 0), policy, true, Some(STORED)) <==>
      entries != [] && SizesOk(entries) && AliasesApart(entries, policy) && InOrder(entries) && !FileIsDirectory(entries, policy)
  {
    hide InfosOf, InfoSizes, SumOf, Alias, LexLess, ProperPrefix;
    var infos := InfosOf(entries, stamp, 0);
    forall i | 0 <= i < |entries|
      ensures infos[i].safe == entries[i].name && infos[i].size == |entries[i].payload| && infos[i].compression == STORED
    {
      InfosAt(entries, stamp, 0, i);
    }
    SizesAre(entries, stamp, 0);
    SameAliases(entries, infos, policy);
    assert NamesSorted(infos) <==> InOrder(entries);
    assert OneMethod(infos, Some(STORED)) <==> entries != [];
    assert BudgetOk(infos) <==> SizesOk(entries);
  }

  lemma SameAliases(entries: seq<WheelEntry>, infos: seq<ZipInfo>, policy: NamePolicy)
    requires |infos| == |entries| && forall i :: 0 <= i < |entries| ==> infos[i].safe == entries[i].name
    ensures AliasesUnique(infos, policy) <==> AliasesApart(entries, policy)
    ensures PrefixCollision(infos, policy) <==> FileIsDirectory(entries, policy)
  {
    hide Alias, ProperPrefix;
  }

  // ---- every packed field fits ----

  lemma {:induction false} LocalsBounded(entries: seq<WheelEntry>, stamp: Stamp, policy: NamePolicy)
    requires AllSafe(entries, policy)
    ensures |LocalImages(entries, stamp)| <= 2_078 * |entries| + SumOf(entries, PayloadSize)
    decreases |entries|
  {
    hide LocalImage, SafeName;
    if entries != [] {
      LocalLength(entries[0], stamp);
      SafeBytes(entries[0].name, policy);
      LocalsBounded(entries[1..], stamp, policy);
    }
  }

  lemma {:induction false} CentralsBounded(entries: seq<WheelEntry>, stamp: Stamp, offset: nat, policy: NamePolicy)
    requires AllSafe(entries, policy)
    ensures |CentralImages(entries, stamp, offset)| <= 2_094 * |entries|
    decreases |entries|
  {
    hide LocalImage, CentralImage, SafeName;
    if entries != [] {
      CentralImageLength(entries[0], stamp, offset);
      SafeBytes(entries[0].name, policy);
      CentralsBounded(entries[1..], stamp, offset + |LocalImage(entries[0], stamp)|, policy);
    }
  }

  lemma RecordFits(e: WheelEntry, stamp: Stamp, offset: nat)
    requires StampOk(stamp) && |e.name| <= 2_048 && |e.payload| < 0x1_0000_0000 && offset < 0x1_0000_0000
    ensures Fits(LOCAL_FORMAT, LocalValues(e, stamp)) && Fits(CENTRAL_FORMAT, CentralValues(e, stamp, offset))
  {
    hide Ascii, EndsWith, Crc32;
    var v, w := LocalValues(e, stamp), CentralValues(e, stamp, offset);
    assert Mode(e.name) < 0x1_0000;
    LocalFits(v);
    CentralFits(w);
  }

  lemma LocalFits(v: seq<nat>)
    requires |v| == 10 && (forall i :: 0 <= i < 10 && i !in {5, 6, 7} ==> v[i] < 0x1_0000) && forall i :: 5 <= i < 8 ==> v[i] < 0x1_0000_0000
    ensures Fits(LOCAL_FORMAT, v)
  {
    assert LOCAL_FORMAT[5] == 4 && LOCAL_FORMAT[6] == 4 && LOCAL_FORMAT[7] == 4;
  }

  lemma CentralFits(v: seq<nat>)
    requires |v| == 16 && (forall i :: 0 <= i < 14 && i !in {6, 7, 8} ==> v[i] < 0x1_0000)
    requires forall i :: i in {6, 7, 8, 14, 15} ==> v[i] < 0x1_0000_0000
    ensures Fits(CENTRAL_FORMAT, v)
  {
    assert forall i :: i in {6, 7, 8, 14, 15} ==> CENTRAL_FORMAT[i] == 4;
  }

  lemma {:induction false} RecordsAllFit(entries: seq<WheelEntry>, stamp: Stamp, offset: nat, policy: NamePolicy)
    requires StampOk(stamp) && AllSafe(entries, policy) && offset + |LocalImages(entries, stamp)| < 0x1_0000_0000
    ensures RecordsFit(entries, stamp, offset)
    decreases |entries|
  {
    hide LocalImage, Fits, LocalValues, CentralValues, SafeName;
    if entries != [] {
      LocalLength(entries[0], stamp);
      SafeBytes(entries[0].name, policy);
      RecordFits(entries[0], stamp, offset);
      RecordsAllFit(entries[1..], stamp, offset + |LocalImage(entries[0], stamp)|, policy);
    }
  }

  /** Within the budgets no packed value is out of range. */
  lemma BudgetFits(entries: seq<WheelEntry>, stamp: Stamp, policy: NamePolicy)
    requires StampOk(stamp) && AllSafe(entries, policy) && SizesOk(entries)
    ensures WheelFits(entries, stamp)
  {
    hide LocalImages, CentralImages, RecordsFit, SumOf, AllSafe;
    LocalsBounded(entries, stamp, policy);
    CentralsBounded(entries, stamp, 0, policy);
    RecordsAllFit(entries, stamp, 0, policy);
    EndFits(|entries|, |CentralImages(entries, stamp, 0)|, |LocalImages(entries, stamp)|);
  }

  lemma EndFits(members: nat, size: nat, offset: nat)
    requires members < 0x1_0000 && size < 0x1_0000_0000 && offset < 0x1_0000_0000
    ensures Fits(END_FORMAT, EndValues(members, size, offset))
  {
    assert END_FORMAT[4] == 4 && END_FORMAT[5] == 4;
  }

  // ---- the writer's output is accepted ----

  /** Entries as the canonicalizer stores them: safe names, budgets, order. */
  ghost predicate Storable(entries: seq<WheelEntry>, policy: NamePolicy) {
    && entries != [] && AllSafe(entries, policy) && SizesOk(entries)
    && AliasesApart(entries, policy) && InOrder(entries) && !FileIsDirectory(entries, policy)
  }

  /** Storable entries are written without an error; when the container is within the size limit,
      it passes every record check exactly when its end record is clean, and then it reads back
      as those entries. */
  lemma WrittenIsAccepted(entries: seq<WheelEntry>, build: WheelBuild)
    requires StampOk(build.stamp) && Storable(entries, build.policy)
    ensures WheelFits(entries, build.stamp)
    ensures var c := WheelImage(entries, build.stamp);
      |c| <= MAX_ARTIFACT_BYTES ==>
        (CanonicalChecks(c, build) <==> EndRecordClean(EndOf(entries, build.stamp)))
        && (EndRecordClean(EndOf(entries, build.stamp)) ==> Contents(c, build) == Some(entries))
  {
    hide WheelFits, WheelImage, CanonicalChecks, Contents, EndRecordClean, EndOf, DirectoryOk, InOrder, AliasesApart,
      FileIsDirectory, SafeName;
    BudgetFits(entries, build.stamp, build.policy);
    InfosAre(entries, build.stamp, build.policy);
    WheelReadsBack(entries, build);
  }

  // ---- which accepted wheels have a canonical form ----

  /** An accepted wheel has members under safe and separate names, and its stamp is that of the build. */
  lemma AcceptedEntries(raw: bytes, build: WheelBuild)
    requires Contents(raw, build).Some?
    ensures var entries := Contents(raw, build).value;
      && 1 <= |entries| <= MAX_ARCHIVE_MEMBERS && NamesDistinct(entries) && AllSafe(entries, build.policy)
      && AliasesApart(entries, build.policy) && !FileIsDirectory(entries, build.policy) && StampOk(build.stamp)
  {
    hide CentralRecords, LocalPayloads, DirectoryContract, SafeName, Alias, PrefixCollision, OneMethod, ProperPrefix, InfoSizes;
    AcceptedNames(raw, build);
    HasMembers(raw);
    var d := DirectoryContract(raw).value;
    var infos := Preflight(raw, d, build.stamp, build.policy, false, None).value;
    var entries := Contents(raw, build).value;
    SameAliases(entries, infos, build.policy);
    StampOfRecord(raw[d.offset..d.eocd], d.members, d.offset, build.stamp, build.policy);
  }

  lemma HasMembers(raw: bytes)
    ensures DirectoryContract(raw).Ok? ==> DirectoryContract(raw).value.members >= 1
  {
    hide EndFields, RFind;
  }

  lemma StampOfRecord(rest: bytes, members: nat, directoryOffset: nat, stamp: Stamp, policy: NamePolicy)
    requires members >= 1 && CentralRecords(rest, members, directoryOffset, stamp, policy).Some?
    ensures StampOk(stamp)
  {
    hide ValidUtf8, SafeReleaseName, CentralAttributesOk, NameDecodes, CentralFields;
    assert CheckCentral(rest, directoryOffset, stamp, policy).Ok?;
    FieldsAreWords(rest);
  }

  lemma FieldsAreWords(rest: bytes)
    requires |rest| >= 46
    ensures var v := CentralFields(rest); v[4] < 0x1_0000 && v[5] < 0x1_0000
  {
    hide Size, Unpack;
    FormatSizes();
    assert CENTRAL_FORMAT[4] == 2 && CENTRAL_FORMAT[5] == 2;
  }

  /** Putting entries in order keeps their names apart. */
  lemma SortedNames(entries: seq<WheelEntry>, s: seq<WheelEntry>, policy: NamePolicy)
    requires NamesDistinct(s) && AliasesApart(entries, policy) && !FileIsDirectory(entries, policy)
    requires forall i :: 0 <= i < |s| ==> HasName(entries, s[i].name)
    ensures AliasesApart(s, policy) && !FileIsDirectory(s, policy)
  {
    hide Alias, ProperPrefix;
    forall i, j | 0 <= i < j < |s| ensures Alias(s[i].name, policy) != Alias(s[j].name, policy) {
      var a :| 0 <= a < |entries| && entries[a].name == s[i].name;
      var b :| 0 <= b < |entries| && entries[b].name == s[j].name;
      assert a < b || b < a;
    }
    forall i, j | 0 <= i < |s| && 0 <= j < |s| ensures !ProperPrefix(Alias(s[i].name, policy), Alias(s[j].name, policy)) {
      var a :| 0 <= a < |entries| && entries[a].name == s[i].name;
      var b :| 0 <= b < |entries| && entries[b].name == s[j].name;
    }
  }

  predicate HasName(entries: seq<WheelEntry>, name: bytes) {
    exists a :: 0 <= a < |entries| && entries[a].name == name
  }

  lemma SortedHaveNames(entries: seq<WheelEntry>, build: WheelBuild)
    requires NormalizedWheel(entries, build).Some?
    ensures var s := CanonicalEntries(entries, build).value;
      |s| == |entries| && forall i :: 0 <= i < |s| ==> HasName(entries, s[i].name)
  {
    hide NormalizedWheel, Sort;
    NormalizedNames(entries, build);
    var n := NormalizedWheel(entries, build).value;
    SortKeeps(n, EntryLess);
    SortMembers(n, EntryLess);
    var s := Sort(n, EntryLess);
    forall i | 0 <= i < |s| ensures HasName(entries, s[i].name) {
      assert s[i] in n;
      var j :| 0 <= j < |n| && n[j] == s[i];
      assert entries[j].name == s[i].name;
    }
  }

  lemma SortedInOrder(entries: seq<WheelEntry>, build: WheelBuild)
    requires NamesDistinct(entries) && NormalizedWheel(entries, build).Some?
    ensures InOrder(CanonicalEntries(entries, build).value)
  {
    hide NormalizedWheel, Sort, LexLess;
    NormalizedNames(entries, build);
    SortedNamesDistinct(NormalizedWheel(entries, build).value);
    var s := CanonicalEntries(entries, build).value;
    forall i, j | 0 <= i < j < |s| ensures !LexLess(s[j].name, s[i].name) {
      assert EntryLess(s[i], s[j]);
      LexTrichotomy(s[i].name, s[j].name);
    }
  }

  /** The contents of an accepted wheel, normalized, are storable exactly when they are in budget. */
  lemma NormalizedIsStorable(raw: bytes, build: WheelBuild)
    requires Contents(raw, build).Some? && CanonicalEntries(Contents(raw, build).value, build).Some?
    ensures var s := CanonicalEntries(Contents(raw, build).value, build).value;
      Storable(s, build.policy) <==> SizesOk(s)
  {
    hide Contents, NormalizedWheel, CanonicalEntries, AliasesApart, FileIsDirectory, InOrder, SafeName, HasName, SizesOk, NamesDistinct;
    var entries := Contents(raw, build).value;
    AcceptedEntries(raw, build);
    SafeAre(entries, build.policy);
    HasNormalized(entries, build);
    SortedSafe(entries, build);
    SortedHaveNames(entries, build);
    SortedInOrder(entries, build);
    SortedNames(entries, CanonicalEntries(entries, build).value, build.policy);
  }

  lemma SafeAre(entries: seq<WheelEntry>, policy: NamePolicy)
    ensures AllSafe(entries, policy) <==> forall i :: 0 <= i < |entries| ==> SafeName(entries[i].name, policy)
  {
    hide SafeName;
  }

  lemma HasNormalized(entries: seq<WheelEntry>, build: WheelBuild)
    ensures CanonicalEntries(entries, build).Some? <==> NormalizedWheel(entries, build).Some?
    ensures NormalizedWheel(entries, build).Some? <==> |Records(LfEntries(entries, build.text))| <= 1
  {
    hide LfEntries, Records, RecordPayload, Sort;
  }

  /** An accepted wheel has a canonical form exactly when the time is in range, it has at most one
      RECORD, and what is written from it, the regenerated RECORD included, is within the member
      budgets and the container limit and has a clean end record. */
  lemma CanonicalExactly(raw: bytes, build: WheelBuild)
    requires Contents(raw, build).Some?
    ensures Canonical(raw, build).Some? <==>
      && TimeOk(build) && |Records(LfEntries(Contents(raw, build).value, build.text))| <= 1
      && var s := CanonicalEntries(Contents(raw, build).value, build).value;
         SizesOk(s) && |WheelImage(s, build.stamp)| <= MAX_ARTIFACT_BYTES && EndRecordClean(EndOf(s, build.stamp))
  {
    hide Contents, LfEntries, Records, CanonicalEntries, WheelFits, WheelImage, CanonicalChecks, EndRecordClean, EndOf, DirectoryOk,
      SizesOk, AliasesApart, FileIsDirectory, InOrder, SafeName, NamesDistinct, NormalizedWheel;
    var entries := Contents(raw, build).value;
    HasNormalized(entries, build);
    if CanonicalEntries(entries, build).Some? {
      var s := CanonicalEntries(entries, build).value;
      AcceptedEntries(raw, build);
      NormalizedIsStorable(raw, build);
      SafeAre(entries, build.policy);
      SortedSafe(entries, build);
      if WheelFits(s, build.stamp) {
        WheelReadsBack(s, build);
        InfosAre(s, build.stamp, build.policy);
      }
      if SizesOk(s) {
        WrittenIsAccepted(s, build);
      }
    }
  }
}
