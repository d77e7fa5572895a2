/** What canonicalization may do to the contents of a source distribution, said of the entries
    before and after alone: which payloads stay, what becomes of line endings, and what the
    regenerated manifest lists. */
module SourceContents {
  import opened Bytes
  import opened Text
  import opened TarWriter

  const CR: byte := 0x0d
  const PKG_INFO: bytes := [0x50, 0x4b, 0x47, 0x2d, 0x49, 0x4e, 0x46, 0x4f]
  const SETUP_CFG: bytes := [0x73, 0x65, 0x74, 0x75, 0x70, 0x2e, 0x63, 0x66, 0x67]

  /** The generated files whose contents are normalized, by name inside the distribution. */
  datatype GeneratedFiles = GeneratedFiles(manifest: bytes, text: set<bytes>)

  // ---- lines ----

  /** The first index that ends a line, or the length. */
  function LineEnd(s: bytes): (at: nat)
    ensures at <= |s| && (at < |s| ==> s[at] in {CR, NEWLINE}) && forall i :: 0 <= i < at ==> s[i] !in {CR, NEWLINE}
  {
    if s == [] || s[0] in {CR, NEWLINE} then 0 else 1 + LineEnd(s[1..])
  }

  /** The lines of a text in which CR LF, CR and LF all end a line. */
  function Lines(s: bytes): (lines: seq<bytes>)
    decreases |s|
  {
    var at := LineEnd(s);
    if at == |s| then [s]
    else if s[at] == CR && at + 1 < |s| && s[at + 1] == NEWLINE then [s[..at]] + Lines(s[at + 2..])
    else [s[..at]] + Lines(s[at + 1..])
  }

  /** The same lines, each ended by LF alone. */
  predicate SameLines(before: bytes, after: bytes) {
    CR !in after && Split(after, NEWLINE) == Lines(before)
  }

  // ---- names ----

  /** `rest` is the path of `name` inside its root directory; a root that is a file has the path of
      one dot. */
  predicate BelowRoot(name: bytes, rest: bytes) {
    || (SLASH !in name && rest == [0x2e])
    || exists k :: 0 <= k < |name| && name[k] == SLASH && SLASH !in name[..k] && rest == name[k + 1..]
  }

  /** `parent` and `base` are the two sides of the last slash of a name. */
  predicate Sides(name: bytes, parent: bytes, base: bytes) {
    SLASH !in base && (name == parent + [SLASH] + base || (parent == [] && name == base))
  }

  /** By parent directory, then base name. */
  ghost predicate ManifestBefore(a: bytes, b: bytes) {
    exists pa, ba, pb, bb :: Sides(a, pa, ba) && Sides(b, pb, bb) && (Precedes(pa, pb) || (pa == pb && Precedes(ba, bb)))
  }

  /** Names without line breaks, and without an empty part right below the root. */
  ghost predicate PlainNames(entries: seq<TarEntry>) {
    forall e :: e in entries ==> NEWLINE !in e.name && forall rest :: BelowRoot(e.name, rest) ==> !(rest != [] && rest[0] == SLASH)
  }

  // ---- the manifest ----

  /** A file's path inside the root, other than the two that the build writes there. */
  ghost predicate Listed(entries: seq<TarEntry>, x: bytes) {
    x != PKG_INFO && x != SETUP_CFG && exists e :: e in entries && e.payload.Some? && BelowRoot(e.name, x)
  }

  /** One line for every listed path, in order, each once; nothing when there is none. */
  ghost predicate IsManifest(payload: bytes, entries: seq<TarEntry>) {
    if exists x :: Listed(entries, x) then
      var lines := Split(payload, NEWLINE);
      (forall x :: x in lines <==> Listed(entries, x)) && forall i, j :: 0 <= i < j < |lines| ==> ManifestBefore(lines[i], lines[j])
    else payload == []
  }

  // ---- entries ----

  /** The manifest is regenerated, generated text keeps its lines, and every other file keeps its bytes. */
  ghost predicate PayloadKept(before: TarEntry, after: TarEntry, entries: seq<TarEntry>, generated: GeneratedFiles) {
    && (before.payload.None? <==> after.payload.None?)
    && (before.payload.Some? ==> forall rest :: BelowRoot(before.name, rest) ==>
          if rest == generated.manifest then IsManifest(after.payload.value, entries)
          else if rest in generated.text then SameLines(before.payload.value, after.payload.value)
          else after.payload == before.payload)
  }

  /** Strictly ascending names. */
  predicate InNameOrder(entries: seq<TarEntry>) {
    forall i, j :: 0 <= i < j < |entries| ==> Precedes(entries[i].name, entries[j].name)
  }

  /** Each entry before has its one entry after, under the same name, and there are no others. */
  ghost predicate ContentsKept(before: seq<TarEntry>, after: seq<TarEntry>, generated: GeneratedFiles) {
    && |after| == |before|
    && (forall e :: e in before ==> exists e' :: e' in after && e'.name == e.name && PayloadKept(e, e', before, generated))
    && (forall e' :: e' in after ==> exists e :: e in before && e'.name == e.name && PayloadKept(e, e', before, generated))
  }
}
