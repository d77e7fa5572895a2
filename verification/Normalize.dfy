/** The content normalization of an sdist: LF line endings in generated files, and a
    regenerated source manifest.  Both are idempotent and independent of archive order. */
module Normalize {
  import opened Outcomes
  import opened Bytes
  import opened Sorting
  import opened Text
  import opened TarWriter
  import opened ReleaseContract
  import opened SourceContents

  // ---- line endings ----

  /** `replace(b"\r\n", b"\n")` */
  function ReplaceCrLf(s: bytes): (r: bytes)
    ensures |r| <= |s|
  {
    if s == [] then []
    else if |s| >= 2 && s[0] == CR && s[1] == NEWLINE then [NEWLINE] + ReplaceCrLf(s[2..])
    else [s[0]] + ReplaceCrLf(s[1..])
  }

  /** `replace(b"\r", b"\n")` */
  function ReplaceCr(s: bytes): (r: bytes)
    ensures |r| == |s|
    ensures forall i :: 0 <= i < |r| ==> r[i] != CR
  {
    if s == [] then [] else [if s[0] == CR then NEWLINE else s[0]] + ReplaceCr(s[1..])
  }

  /** `_canonical_lf_text` */
  function CanonicalLf(payload: bytes): (r: bytes)
    ensures |r| <= |payload| && CR !in r
  {
    ReplaceCr(ReplaceCrLf(payload))
  }

  lemma {:induction false} WithoutCr(s: bytes)
    requires CR !in s
    ensures ReplaceCrLf(s) == s && ReplaceCr(s) == s
  {
    if s != [] {
      WithoutCr(s[1..]);
      assert s == [s[0]] + s[1..];
    }
  }

  lemma LfIdempotent(payload: bytes)
    ensures CanonicalLf(CanonicalLf(payload)) == CanonicalLf(payload)
  {
    WithoutCr(CanonicalLf(payload));
  }

  // ---- lines ----

  lemma {:induction false} LfBehind(a: bytes, b: bytes)
    requires CR !in a
    ensures CanonicalLf(a + b) == a + CanonicalLf(b)
  {
    if a == [] {
      assert a + b == b && a + CanonicalLf(b) == CanonicalLf(b);
    } else {
      LfBehind(a[1..], b);
      var s := a + b;
      assert s[1..] == a[1..] + b;
      var rest := ReplaceCrLf(s[1..]);
      assert ([s[0]] + rest)[1..] == rest;
      assert ReplaceCr([s[0]] + rest) == [s[0]] + ReplaceCr(rest);
      assert a + CanonicalLf(b) == [a[0]] + (a[1..] + CanonicalLf(b));
    }
  }

  /** A line end becomes one LF. */
  lemma LfBreak(s: bytes, width: nat)
    requires s != [] && s[0] in {CR, NEWLINE}
    requires width == if s[0] == CR && |s| > 1 && s[1] == NEWLINE then 2 else 1
    ensures CanonicalLf(s) == [NEWLINE] + CanonicalLf(s[width..])
  {
    var first := if width == 2 then NEWLINE else s[0];
    var rest := ReplaceCrLf(s[width..]);
    assert ReplaceCrLf(s) == [first] + rest;
    assert ([first] + rest)[1..] == rest;
  }

  /** Normalization keeps the lines and leaves no CR. */
  lemma {:induction false} LfKeepsLines(s: bytes)
    ensures SameLines(s, CanonicalLf(s))
    decreases |s|
  {
    hide CanonicalLf, Split;
    var at := LineEnd(s);
    assert s == s[..at] + s[at..] && CR !in s[..at] && NEWLINE !in s[..at];
    if at == |s| {
      PlainText(s);
      SplitWhole(s, NEWLINE);
    } else {
      var width := if s[at] == CR && at + 1 < |s| && s[at + 1] == NEWLINE then 2 else 1;
      LfBehind(s[..at], s[at..]);
      LfBreak(s[at..], width);
      assert s[at..][width..] == s[at + width..];
      LfKeepsLines(s[at + width..]);
      var rest := CanonicalLf(s[at + width..]);
      assert CanonicalLf(s) == s[..at] + [NEWLINE] + rest;
      SplitAt(s[..at], NEWLINE, rest);
    }
  }

  lemma PlainText(s: bytes)
    requires CR !in s
    ensures CanonicalLf(s) == s
  {
    WithoutCr(s);
  }

  // ---- names inside the distribution directory ----

  /** `PurePosixPath(*parts[1:]).as_posix()` */
  function Relative(name: bytes): bytes {
    var parts := Split(name, SLASH);
    if |parts| == 1 then [0x2e] else Join(parts[1..], SLASH)
  }

  function LastSlash(name: bytes): (at: int)
    ensures -1 <= at < |name|
    ensures at >= 0 ==> name[at] == SLASH
    ensures forall i :: at < i < |name| ==> name[i] != SLASH
  {
    if name == [] then -1
    else if name[|name| - 1] == SLASH then |name| - 1
    else LastSlash(name[..|name| - 1])
  }

  /** `_sources_manifest_order_key`: parent directory, then base name. */
  function ManifestKey(name: bytes): (bytes, bytes) {
    var at := LastSlash(name);
    if at < 0 then ([], name) else (name[..at], name[at + 1..])
  }

  predicate ManifestLess(a: bytes, b: bytes) {
    var ka, kb := ManifestKey(a), ManifestKey(b);
    LexLess(ka.0, kb.0) || (ka.0 == kb.0 && LexLess(ka.1, kb.1))
  }

  lemma RelativeMeans(name: bytes, rest: bytes)
    ensures BelowRoot(name, rest) <==> rest == Relative(name)
  {
    var at := Find(name, SLASH, 0);
    if at < |name| {
      SplitJoin(name[at + 1..], SLASH);
      var parts := Split(name, SLASH);
      assert parts[1..] == Split(name[at + 1..], SLASH);
      assert Relative(name) == name[at + 1..];
      assert SLASH !in name[..at];
      if k :| 0 <= k < |name| && name[k] == SLASH && SLASH !in name[..k] && rest == name[k + 1..] {
        assert forall i :: 0 <= i < k ==> name[i] == name[..k][i] && name[..k][i] in name[..k];
        assert k == at;
      }
    }
  }

  lemma SidesAre(name: bytes)
    ensures Sides(name, ManifestKey(name).0, ManifestKey(name).1)
  {
    hide LastSlash;
    var at := LastSlash(name);
    if at >= 0 {
      assert name == name[..at] + [SLASH] + name[at + 1..];
    }
  }

  lemma LessIsBefore(a: bytes, b: bytes)
    requires ManifestLess(a, b)
    ensures ManifestBefore(a, b)
  {
    hide LexLess, ManifestKey, Sides, Precedes;
    SidesAre(a);
    SidesAre(b);
    LexIsPrecedes(ManifestKey(a).0, ManifestKey(b).0);
    LexIsPrecedes(ManifestKey(a).1, ManifestKey(b).1);
  }

  /** Names without a leading slash are told apart by their keys. */
  lemma KeyInjective(a: bytes, b: bytes)
    requires ManifestKey(a) == ManifestKey(b)
    requires !(a != [] && a[0] == SLASH) && !(b != [] && b[0] == SLASH)
    ensures a == b
  {
    hide LastSlash;
    var i, j := LastSlash(a), LastSlash(b);
    if i >= 0 {
      assert i > 0;
      assert a == a[..i] + [SLASH] + a[i + 1..];
    }
    if j >= 0 {
      assert j > 0;
      assert b == b[..j] + [SLASH] + b[j + 1..];
    }
  }

  lemma ManifestComparable(a: bytes, b: bytes)
    requires !(a != [] && a[0] == SLASH) && !(b != [] && b[0] == SLASH)
    ensures a == b || ManifestLess(a, b) || ManifestLess(b, a)
  {
    hide ManifestKey, LexLess;
    var ka, kb := ManifestKey(a), ManifestKey(b);
    LexTrichotomy(ka.0, kb.0);
    LexTrichotomy(ka.1, kb.1);
    if ka.0 == kb.0 && ka.1 == kb.1 {
      KeyInjective(a, b);
    }
  }

  lemma ManifestOrder()
    ensures StrictOrder(ManifestLess)
  {
    hide ManifestKey, LexLess;
    forall a: bytes ensures !ManifestLess(a, a) {
      LexTrichotomy(ManifestKey(a).0, ManifestKey(a).0);
      LexTrichotomy(ManifestKey(a).1, ManifestKey(a).1);
    }
    forall a, b, c | ManifestLess(a, b) && ManifestLess(b, c)
      ensures ManifestLess(a, c)
    {
      var ka, kb, kc := ManifestKey(a), ManifestKey(b), ManifestKey(c);
      if LexLess(ka.0, kb.0) && LexLess(kb.0, kc.0) { LexTransitive(ka.0, kb.0, kc.0); }
      if LexLess(ka.1, kb.1) && LexLess(kb.1, kc.1) { LexTransitive(ka.1, kb.1, kc.1); }
    }
  }

  // ---- the source manifest ----

  /** The distinct elements of a list, in order of first appearance. */
  function Unique(names: seq<bytes>): (r: seq<bytes>)
    ensures |r| <= |names|
    ensures forall x :: x in r <==> x in names
  {
    if names == [] then []
    else
      var rest := Unique(names[..|names| - 1]);
      var last := names[|names| - 1];
      assert names == names[..|names| - 1] + [last];
      if last in rest then rest else rest + [last]
  }

  lemma {:induction false} UniqueDistinct(names: seq<bytes>)
    ensures Distinct(Unique(names))
  {
    if names != [] {
      UniqueDistinct(names[..|names| - 1]);
    }
  }

  /** The names the manifest lists: every file but the two the build writes at the root. */
  function ManifestNames(entries: seq<TarEntry>): (names: seq<bytes>)
    ensures |names| <= |entries|
  {
    if entries == [] then []
    else
      var relative := Relative(entries[0].name);
      var rest := ManifestNames(entries[1..]);
      if entries[0].payload.None? || relative == PKG_INFO || relative == SETUP_CFG then rest else [relative] + rest
  }

  /** Which names there are, and which of them are directories. */
  function Shapes(entries: seq<TarEntry>): (shapes: set<(bytes, bool)>)
    ensures forall e :: e in entries ==> (e.name, e.payload.None?) in shapes
    ensures forall s :: s in shapes ==> exists e :: e in entries && (e.name, e.payload.None?) == s
  {
    set e | e in entries :: (e.name, e.payload.None?)
  }

  lemma {:induction false} ManifestNamesAre(entries: seq<TarEntry>, x: bytes)
    ensures x in ManifestNames(entries) <==>
      x != PKG_INFO && x != SETUP_CFG && exists s :: s in Shapes(entries) && !s.1 && Relative(s.0) == x
  {
    if entries != [] {
      ManifestNamesAre(entries[1..], x);
      var e := entries[0];
      assert entries == [e] + entries[1..];
      assert Shapes(entries) == {(e.name, e.payload.None?)} + Shapes(entries[1..]);
    }
  }

  /** `_canonical_sdist_sources_payload` */
  function SourcesPayload(entries: seq<TarEntry>): bytes {
    Join(Sort(Unique(ManifestNames(entries)), ManifestLess), NEWLINE)
  }

  // ---- normalization ----

  /** One iteration of `_normalize_sdist_entries`. */
  function NormalizeEntry(e: TarEntry, sources: bytes, generated: GeneratedFiles): (r: TarEntry)
    ensures r.name == e.name && (r.payload.None? <==> e.payload.None?)
    ensures |EntryData(r)| <= |EntryData(e)| || EntryData(r) == sources
  {
    var relative := Relative(e.name);
    if e.payload.None? then e
    else if relative == generated.manifest then TarEntry(e.name, Some(sources))
    else if relative in generated.text then TarEntry(e.name, Some(CanonicalLf(e.payload.value)))
    else e
  }

  function NormalizeAll(entries: seq<TarEntry>, sources: bytes, generated: GeneratedFiles): (r: seq<TarEntry>)
    ensures |r| == |entries|
    ensures forall i :: 0 <= i < |r| ==> r[i] == NormalizeEntry(entries[i], sources, generated)
  {
    seq(|entries|, i requires 0 <= i < |entries| => NormalizeEntry(entries[i], sources, generated))
  }

  function Normalized(entries: seq<TarEntry>, generated: GeneratedFiles): (r: seq<TarEntry>)
    ensures |r| == |entries|
  {
    NormalizeAll(entries, SourcesPayload(entries), generated)
  }

  // ---- what it keeps ----

  lemma ListedAre(entries: seq<TarEntry>, x: bytes)
    ensures Listed(entries, x) <==> x in ManifestNames(entries)
  {
    hide Relative, BelowRoot, ManifestNames;
    ManifestNamesAre(entries, x);
    if s :| s in Shapes(entries) && !s.1 && Relative(s.0) == x {
      var e :| e in entries && (e.name, e.payload.None?) == s;
      RelativeMeans(e.name, x);
    }
    if e :| e in entries && e.payload.Some? && BelowRoot(e.name, x) {
      RelativeMeans(e.name, x);
      assert (e.name, false) in Shapes(entries);
    }
  }

  lemma PlainListed(entries: seq<TarEntry>, x: bytes)
    requires PlainNames(entries) && Listed(entries, x)
    ensures NEWLINE !in x && !(x != [] && x[0] == SLASH)
  {
    var e :| e in entries && e.payload.Some? && BelowRoot(e.name, x);
    if SLASH in e.name {
      var k :| 0 <= k < |e.name| && e.name[k] == SLASH && x == e.name[k + 1..];
      assert forall i :: 0 <= i < |x| ==> x[i] == e.name[k + 1 + i] && e.name[k + 1 + i] in e.name;
    }
  }

  /** The regenerated manifest lists what it should, in order, each once. */
  lemma ManifestListed(entries: seq<TarEntry>)
    requires PlainNames(entries)
    ensures IsManifest(SourcesPayload(entries), entries)
  {
    hide Listed, ManifestNames, Unique, Sort, ManifestBefore, ManifestLess, Split, PlainNames;
    var names := Unique(ManifestNames(entries));
    var lines := Sort(names, ManifestLess);
    SortMembers(names, ManifestLess);
    forall x ensures Listed(entries, x) <==> x in lines { ListedAre(entries, x); }
    if exists x :: Listed(entries, x) {
      var x :| Listed(entries, x);
      assert x in lines;
      forall i | 0 <= i < |lines| ensures NEWLINE !in lines[i] { PlainListed(entries, lines[i]); }
      SplitOfJoin(lines, NEWLINE);
      ManifestSorted(entries, names);
      forall i, j | 0 <= i < j < |lines| ensures ManifestBefore(lines[i], lines[j]) { LessIsBefore(lines[i], lines[j]); }
    } else {
      FirstIsIn(lines);
    }
  }

  lemma FirstIsIn(lines: seq<bytes>)
    ensures lines == [] || lines[0] in lines
  {
  }

  lemma ManifestSorted(entries: seq<TarEntry>, names: seq<bytes>)
    requires PlainNames(entries) && names == Unique(ManifestNames(entries))
    ensures Sorted(Sort(names, ManifestLess), ManifestLess)
  {
    hide ManifestNames, Unique, Sort, ManifestLess, PlainNames, Listed;
    ManifestOrder();
    UniqueDistinct(ManifestNames(entries));
    forall p, q | p in names && q in names ensures p == q || ManifestLess(p, q) || ManifestLess(q, p) {
      ListedAre(entries, p);
      ListedAre(entries, q);
      PlainListed(entries, p);
      PlainListed(entries, q);
      ManifestComparable(p, q);
    }
    SortSorted(names, ManifestLess);
  }

  lemma EntryKept(e: TarEntry, entries: seq<TarEntry>, generated: GeneratedFiles)
    requires PlainNames(entries)
    ensures PayloadKept(e, NormalizeEntry(e, SourcesPayload(entries), generated), entries, generated)
  {
    hide Relative, BelowRoot, IsManifest, SameLines, SourcesPayload, PlainNames, CanonicalLf;
    ManifestListed(entries);
    if e.payload.Some? {
      LfKeepsLines(e.payload.value);
      forall rest | BelowRoot(e.name, rest) ensures rest == Relative(e.name) { RelativeMeans(e.name, rest); }
    }
  }

  lemma NormalizedKeeps(entries: seq<TarEntry>, generated: GeneratedFiles)
    requires PlainNames(entries)
    ensures ContentsKept(entries, Normalized(entries, generated), generated)
  {
    hide NormalizeEntry, PayloadKept, PlainNames, SourcesPayload;
    var sources, after := SourcesPayload(entries), Normalized(entries, generated);
    forall e | e in entries ensures exists e' :: e' in after && e'.name == e.name && PayloadKept(e, e', entries, generated) {
      var i :| 0 <= i < |entries| && entries[i] == e;
      EntryKept(e, entries, generated);
      assert after[i] in after;
    }
    forall e' | e' in after ensures exists e :: e in entries && e'.name == e.name && PayloadKept(e, e', entries, generated) {
      var i :| 0 <= i < |after| && after[i] == e';
      EntryKept(entries[i], entries, generated);
      assert entries[i] in entries;
    }
  }

  lemma SortedIsInOrder(entries: seq<TarEntry>)
    requires Sorted(entries, ByName)
    ensures InNameOrder(entries)
  {
    hide LexLess, Precedes;
    forall i, j | 0 <= i < j < |entries| ensures Precedes(entries[i].name, entries[j].name) {
      assert ByName(entries[i], entries[j]);
      LexIsPrecedes(entries[i].name, entries[j].name);
    }
  }

  lemma SortedKeeps(before: seq<TarEntry>, after: seq<TarEntry>, generated: GeneratedFiles)
    requires ContentsKept(before, after, generated)
    ensures ContentsKept(before, Sort(after, ByName), generated)
  {
    hide Sort, PayloadKept;
    SortKeeps(after, ByName);
    SortMembers(after, ByName);
  }

  /** `_normalize_sdist_entries` */
  method NormalizeSdistEntries(entries: seq<TarEntry>, generated: GeneratedFiles) returns (normalized: seq<TarEntry>)
    ensures normalized == Normalized(entries, generated)
    ensures PlainNames(entries) ==> ContentsKept(entries, normalized, generated)
  {
    hide NormalizeEntry, SourcesPayload, ContentsKept, PlainNames;
    if PlainNames(entries) { NormalizedKeeps(entries, generated); }
    var sources := SourcesPayload(entries);
    normalized := [];
    for index := 0 to |entries|
      invariant |normalized| == index
      invariant forall i :: 0 <= i < index ==> normalized[i] == NormalizeEntry(entries[i], sources, generated)
    {
      normalized := normalized + [NormalizeEntry(entries[index], sources, generated)];
    }
  }

  ghost predicate NoLeadingSlash(entries: seq<TarEntry>) {
    forall e :: e in entries ==> !(Relative(e.name) != [] && Relative(e.name)[0] == SLASH)
  }

  /** The manifest depends only on which files there are. */
  lemma SourcesSame(a: seq<TarEntry>, b: seq<TarEntry>)
    requires Shapes(a) == Shapes(b) && NoLeadingSlash(a)
    ensures SourcesPayload(a) == SourcesPayload(b)
  {
    var x, y := Unique(ManifestNames(a)), Unique(ManifestNames(b));
    forall name
      ensures name in x <==> name in y
    {
      ManifestNamesAre(a, name);
      ManifestNamesAre(b, name);
    }
    UniqueDistinct(ManifestNames(a));
    UniqueDistinct(ManifestNames(b));
    ManifestOrder();
    forall p, q | p in x && q in x
      ensures p == q || ManifestLess(p, q) || ManifestLess(q, p)
    {
      ManifestNamesAre(a, p);
      ManifestNamesAre(a, q);
      ManifestComparable(p, q);
    }
    SortOrderFree(x, y, ManifestLess);
  }

  // ---- idempotence ----

  lemma RelativeOfSafe(name: bytes, policy: NamePolicy)
    requires SafeName(name, policy)
    ensures var r := Relative(name); r != [] && r[0] != SLASH && |r| <= MAX_NAME_BYTES
  {
    SafeBytes(name, policy);
    SplitJoin(name, SLASH);
    var parts := Split(name, SLASH);
    assert ComponentsOk(parts, policy);
    if |parts| > 1 {
      assert name == parts[0] + [SLASH] + Join(parts[1..], SLASH);
      JoinFirst(parts[1..]);
      assert parts[1..][0] == parts[1] && SLASH !in parts[1];
    }
  }

  lemma JoinFirst(parts: seq<bytes>)
    requires parts != [] && parts[0] != []
    ensures Join(parts, SLASH) != [] && Join(parts, SLASH)[0] == parts[0][0]
  {
  }

  lemma ShapesOfNormalized(entries: seq<TarEntry>, sources: bytes, generated: GeneratedFiles)
    ensures Shapes(NormalizeAll(entries, sources, generated)) == Shapes(entries)
  {
    hide NormalizeEntry;
    var r := NormalizeAll(entries, sources, generated);
    forall s
      ensures s in Shapes(r) <==> s in Shapes(entries)
    {
      if s in Shapes(r) {
        var e :| e in r && (e.name, e.payload.None?) == s;
        var i :| 0 <= i < |r| && r[i] == e;
        assert entries[i] in entries;
      }
      if s in Shapes(entries) {
        var e :| e in entries && (e.name, e.payload.None?) == s;
        var i :| 0 <= i < |entries| && entries[i] == e;
        assert r[i] in r;
      }
    }
  }

  lemma ShapesOfSorted(entries: seq<TarEntry>)
    ensures Shapes(Sort(entries, ByName)) == Shapes(entries)
  {
    SortMembers(entries, ByName);
  }

  lemma NormalizeEntryIdempotent(e: TarEntry, sources: bytes, generated: GeneratedFiles)
    ensures var n := NormalizeEntry(e, sources, generated); NormalizeEntry(n, sources, generated) == n
  {
    if e.payload.Some? {
      LfIdempotent(e.payload.value);
    }
  }

  /** Normalized entries in archive order are a fixed point of normalization. */
  lemma NormalizedIsFixed(entries: seq<TarEntry>, generated: GeneratedFiles)
    requires NoLeadingSlash(entries)
    ensures var stored := Sort(Normalized(entries, generated), ByName);
      Normalized(stored, generated) == stored
  {
    hide SourcesPayload, NormalizeEntry, Sort;
    var sources := SourcesPayload(entries);
    var normalized := Normalized(entries, generated);
    var stored := Sort(normalized, ByName);
    ShapesOfNormalized(entries, sources, generated);
    ShapesOfSorted(normalized);
    SourcesSame(entries, stored);
    SortMembers(normalized, ByName);
    forall i | 0 <= i < |stored|
      ensures NormalizeEntry(stored[i], sources, generated) == stored[i]
    {
      assert stored[i] in normalized;
      var j :| 0 <= j < |normalized| && normalized[j] == stored[i];
      NormalizeEntryIdempotent(entries[j], sources, generated);
    }
  }

  // ---- sizes ----

  lemma {:induction false} JoinSize(parts: seq<bytes>, separator: byte)
    requires forall i :: 0 <= i < |parts| ==> |parts[i]| <= MAX_NAME_BYTES
    ensures |Join(parts, separator)| <= |parts| * (MAX_NAME_BYTES + 1)
  {
    if |parts| > 1 {
      JoinSize(parts[1..], separator);
    }
  }

  /** The regenerated manifest stays below the size limit of a member. */
  lemma SourcesSmall(entries: seq<TarEntry>, policy: NamePolicy)
    requires |entries| <= MAX_ARCHIVE_MEMBERS && forall e :: e in entries ==> SafeName(e.name, policy)
    ensures |SourcesPayload(entries)| <= MAX_MEMBER_BYTES
  {
    hide SafeName, Relative;
    var names := Unique(ManifestNames(entries));
    var ordered := Sort(names, ManifestLess);
    SortMembers(names, ManifestLess);
    SortKeeps(names, ManifestLess);
    forall i | 0 <= i < |ordered|
      ensures |ordered[i]| <= MAX_NAME_BYTES
    {
      assert ordered[i] in ordered;
      ManifestNamesAre(entries, ordered[i]);
      var s :| s in Shapes(entries) && !s.1 && Relative(s.0) == ordered[i];
      RelativeOfSafe(s.0, policy);
    }
    JoinSize(ordered, NEWLINE);
  }
}
