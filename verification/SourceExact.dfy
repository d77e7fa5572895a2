/** Which archives of build tools the canonicalizer accepts, and as which entries: said of their
    bytes and members, without the readers. */
module SourceExact {
  import opened Outcomes
  import opened Bytes
  import opened Text
  import opened TarHeader
  import opened Tar
  import opened TarWriter
  import opened TarSource
  import opened SourceGrammar
  import opened Normalize
  import opened Sdist
  import opened ReleaseContract

  // ---- the container's header ----

  /** Magic, flags and method, a time, a level, system 255, the name and its terminator. */
  ghost predicate Headed(raw: bytes, name: bytes) {
    exists mtime, level, rest ::
      |mtime| == 4 && level in {0, 2} && raw == [0x1f, 0x8b, 8, 8] + mtime + [level, 255] + name + [0] + rest
  }

  lemma HeadRead(raw: bytes, name: bytes)
    requires SourceHeaderOk(raw, name)
    ensures Headed(raw, name) && 0 !in name
  {
    var n := 10 + |name|;
    var terminator := Find(raw, 0, 10);
    assert raw[10..terminator] == name;
    assert raw == raw[..4] + raw[4..8] + [raw[8], raw[9]] + raw[10..n] + [raw[n]] + raw[n + 1..];
  }

  lemma HeadReads(mtime: bytes, level: byte, name: bytes, rest: bytes)
    requires |mtime| == 4 && level in {0, 2} && Ascii(name) && 0 !in name && |name| <= 255
    ensures var raw := [0x1f, 0x8b, 8, 8] + mtime + [level, 255] + name + [0] + rest;
      |raw| <= MAX_ARTIFACT_BYTES ==> SourceHeaderOk(raw, name)
  {
    var raw: bytes := [0x1f, 0x8b, 8, 8] + mtime + [level, 255] + name + [0] + rest;
    var n := 10 + |name|;
    assert raw[..4] == [0x1f, 0x8b, 8, 8] && raw[8] == level && raw[9] == 255 && raw[n] == 0;
    assert raw[10..n] == name;
    assert forall i :: 10 <= i < n ==> raw[i] == name[i - 10] && name[i - 10] in name;
    assert Find(raw, 0, 10) == n;
  }

  /** The header is accepted exactly when it is spelled like that around an ASCII name of at most 255
      characters. */
  lemma HeadExactly(raw: bytes, name: bytes)
    ensures SourceHeaderOk(raw, name) <==>
      |raw| <= MAX_ARTIFACT_BYTES && Headed(raw, name) && Ascii(name) && 0 !in name && |name| <= 255
  {
    hide Ascii;
    if SourceHeaderOk(raw, name) { HeadRead(raw, name); }
    if |raw| <= MAX_ARTIFACT_BYTES && Headed(raw, name) && Ascii(name) && 0 !in name && |name| <= 255 {
      var mtime, level, rest :|
        |mtime| == 4 && level in {0, 2} && raw == [0x1f, 0x8b, 8, 8] + mtime + [level, 255] + name + [0] + rest;
      HeadReads(mtime, level, name, rest);
    }
  }

  // ---- one member ----

  /** At most 31 printable ASCII characters. */
  predicate OwnerText(s: bytes) {
    |s| <= 31 && forall c :: c in s ==> 0x20 <= c <= 0x7e
  }

  predicate Slashes(s: bytes) {
    forall c :: c in s ==> c == SLASH
  }

  /** The name that the archive library gives a member: of a directory, or of a member with an
      extended path, without the slashes behind it. */
  ghost predicate Reported(raw: RawMember, name: bytes) {
    if raw.pax || raw.memberType == DIRTYPE
    then (name == [] || name[|name| - 1] != SLASH) && exists slashes :: Slashes(slashes) && raw.path == name + slashes
    else name == raw.path
  }

  /** The member is allowed, and this is the entry it becomes. */
  ghost predicate Becomes(raw: RawMember, e: TarEntry, policy: NamePolicy) {
    && OwnerText(raw.uname) && OwnerText(raw.gname) && ValidUtf8(e.name)
    && (exists name :: Reported(raw, name) && ValidUtf8(name) && SafeReleaseName(name, policy) == Some(e.name))
    && if raw.memberType == DIRTYPE then e.payload == None && raw.data == [] && raw.mode in {0x1c0, 0x1ed, 0x1fd, 0x1ff}
       else e.payload == Some(raw.data) && raw.mode in {0x180, 0x1a4, 0x1b4, 0x1b6}
  }

  lemma {:induction false} TrimmedIs(path: bytes) returns (slashes: bytes)
    ensures var name := TrimSlashes(path);
      Slashes(slashes) && path == name + slashes && (name == [] || name[|name| - 1] != SLASH)
  {
    slashes := [];
    if EndsInSlash(path) {
      var rest := TrimmedIs(path[..|path| - 1]);
      slashes := rest + [SLASH];
    }
  }

  lemma {:induction false} TrimsSlashes(name: bytes, slashes: bytes)
    requires Slashes(slashes) && (name == [] || name[|name| - 1] != SLASH)
    ensures TrimSlashes(name + slashes) == name
    decreases |slashes|
  {
    if slashes == [] {
      assert name + slashes == name;
    } else {
      var n := |slashes| - 1;
      assert slashes[n] in slashes && forall c :: c in slashes[..n] ==> c in slashes;
      assert (name + slashes)[..|name + slashes| - 1] == name + slashes[..n];
      TrimsSlashes(name, slashes[..n]);
    }
  }

  lemma Trimmed(path: bytes, name: bytes)
    ensures TrimSlashes(path) == name <==>
      (name == [] || name[|name| - 1] != SLASH) && exists slashes :: Slashes(slashes) && path == name + slashes
  {
    hide TrimSlashes, Slashes;
    var slashes := TrimmedIs(path);
    if rest :| Slashes(rest) && path == name + rest {
      if name == [] || name[|name| - 1] != SLASH { TrimsSlashes(name, rest); }
    }
  }

  lemma ReportedExactly(raw: RawMember, name: bytes)
    ensures LibraryName(raw) == name <==> Reported(raw, name)
  {
    hide TrimSlashes;
    Trimmed(raw.path, name);
  }

  lemma OwnerExactly(s: bytes)
    ensures Printable(s) <==> OwnerText(s)
  {
    assert forall i :: 0 <= i < |s| ==> s[i] in s;
  }

  lemma BecomesExactly(raw: RawMember, e: TarEntry, policy: NamePolicy)
    ensures EntryOf(raw, policy) == Some(e) <==> Becomes(raw, e, policy)
  {
    hide LibraryName, SafeReleaseName, ValidUtf8, Reported, Printable, OwnerText;
    OwnerExactly(raw.uname);
    OwnerExactly(raw.gname);
    forall name ensures LibraryName(raw) == name <==> Reported(raw, name) { ReportedExactly(raw, name); }
  }

  // ---- all members ----

  ghost predicate AllBecome(raws: seq<RawMember>, entries: seq<TarEntry>, policy: NamePolicy) {
    |entries| == |raws| && forall k :: 0 <= k < |raws| ==> Becomes(raws[k], entries[k], policy)
  }

  lemma {:induction false} CollectRead(raws: seq<RawMember>, taken: set<seq<bytes>>, count: nat, total: nat, policy: NamePolicy)
    requires CollectEntries(raws, taken, count, total, policy).Some?
    ensures AllBecome(raws, CollectEntries(raws, taken, count, total, policy).value, policy)
    decreases |raws|
  {
    hide EntryOf, Becomes;
    if raws != [] {
      var e := EntryOf(raws[0], policy).value;
      BecomesExactly(raws[0], e, policy);
      CollectRead(raws[1..], taken + {Alias(e.name, policy)}, count + 1, total + |EntryData(e)|, policy);
      assert forall k :: 0 < k < |raws| ==> raws[k] == raws[1..][k - 1];
    }
  }

  lemma {:induction false} CollectReads(raws: seq<RawMember>, entries: seq<TarEntry>, taken: set<seq<bytes>>, count: nat, total: nat, policy: NamePolicy)
    requires AllBecome(raws, entries, policy) && Collectable(entries, taken, count, total, policy)
    ensures CollectEntries(raws, taken, count, total, policy) == Some(entries)
    decreases |raws|
  {
    hide EntryOf, Becomes, Alias, SafeEntry, Collectable;
    if raws != [] {
      var e, rest := entries[0], entries[1..];
      BecomesExactly(raws[0], e, policy);
      CollectTail(entries, taken, count, total, policy);
      CollectReads(raws[1..], rest, taken + {Alias(e.name, policy)}, count + 1, total + |EntryData(e)|, policy);
      assert [e] + rest == entries;
    }
  }

  /** These are the entries of the tar. */
  ghost predicate Holds(tar: bytes, entries: seq<TarEntry>, policy: NamePolicy) {
    && |tar| % CONTAINER == 0
    && (exists raws :: Archive(tar, None, raws, policy) && Budgeted(raws, 0, 0) && AllBecome(raws, entries, policy))
    && Collectable(entries, {}, 0, 0, policy) && TopologyOk(Shapes(entries))
  }

  /** A tar has these entries exactly when every member becomes one, their aliases differ, they are
      within the budgets, and there is one root with exactly the directories that lead to files. */
  lemma EntriesExactly(tar: bytes, entries: seq<TarEntry>, policy: NamePolicy)
    ensures SourceEntries(tar, policy) == Some(entries) <==> Holds(tar, entries, policy)
  {
    hide ParseSource, CollectEntries, TopologyOk, AllBecome, Collectable, Archive, Budgeted;
    if SourceEntries(tar, policy) == Some(entries) {
      var raws := ParseSource(tar, None, 0, 0, policy).value;
      ArchiveExactly(tar, raws, policy);
      CollectRead(raws, {}, 0, 0, policy);
      CollectSound(raws, {}, 0, 0, policy);
    }
    if Holds(tar, entries, policy) {
      var raws :| Archive(tar, None, raws, policy) && Budgeted(raws, 0, 0) && AllBecome(raws, entries, policy);
      ArchiveExactly(tar, raws, policy);
      CollectReads(raws, entries, {}, 0, 0, policy);
    }
  }
}
