/** The two independent readers agree: the streaming container reader accepts what the
    whole-buffer reader accepts, and the release verifier accepts every canonical sdist. */
module SdistVerified {
  import opened Outcomes
  import opened Bytes
  import opened Text
  import opened Gzip
  import opened GzipStream
  import opened Tar
  import opened TarWriter
  import opened TarSource
  import opened Sorting
  import opened Normalize
  import opened SourceContents
  import opened Sdist
  import opened ReleaseContract

  /** A tar name the verifier's header check can accept. */
  predicate TarNameOk(name: bytes) {
    Ascii(name) && 0 !in name && SLASH !in name && |name| <= MAX_COMPONENT_BYTES && EndsWithTar(name)
  }

  lemma HeadersAgree(raw: bytes, name: bytes)
    requires TarNameOk(name) && |raw| <= MAX_ARTIFACT_BYTES
    ensures SourceHeaderOk(raw, name) && raw[8] == 0 <==>
      11 + |name| <= |raw| && raw[..11 + |name|] == GzipHeader(name, U32(raw, 4))
  {
    var n := 11 + |name|;
    if |raw| >= 11 {
      var terminator := Find(raw, 0, 10);
      if n <= |raw| {
        HeaderFields(raw[..n], name, U32(raw, 4));
        assert U32(raw[..n], 4) == U32(raw, 4);
        assert raw[..n][..4] == raw[..4] && raw[..n][10..10 + |name|] == raw[10..10 + |name|];
        if raw[..n] == GzipHeader(name, U32(raw, 4)) {
          assert forall i :: 10 <= i < 10 + |name| ==> raw[i] == name[i - 10];
          assert raw[10 + |name|] == 0;
          assert terminator == 10 + |name|;
        }
      }
      if SourceHeaderOk(raw, name) {
        assert |raw[10..terminator]| == |name|;
      }
    }
  }

  lemma HeaderPasses(raw: bytes, name: bytes)
    requires TarNameOk(name) && 11 + |name| <= |raw|
    requires raw[..11 + |name|] == GzipHeader(name, U32(raw, 4))
    ensures NoNul(raw, 10, 10 + |name|)
    ensures HeaderProblem(raw[..11 + |name|], Some(name), None) == None
  {
    var n := 11 + |name|;
    HeaderFields(raw[..n], name, U32(raw, 4));
    assert forall i :: 10 <= i < 10 + |name| ==> raw[i] == raw[..n][10..10 + |name|][i - 10];
    FirstNul(raw, name, U32(raw, 4));
    assert raw[..n][10..10 + |name|] == name;
  }

  /** On a stored container the streaming reader accepts the same bytes, with the same
      payload, as the whole-buffer reader of the canonicalizer. */
  lemma StreamingAgrees(raw: bytes, tar: bytes, build: Build)
    requires TarNameOk(build.tarName)
    ensures CanonicalFile(raw, |raw|, tar, Some(build.tarName), None) <==>
      Unpacks(raw, tar, build) && raw[8] == 0
  {
    hide StoredBody, HeaderProblem, CanonicalFile;
    var name := build.tarName;
    var n := 11 + |name|;
    if |raw| <= MAX_ARTIFACT_BYTES {
      HeadersAgree(raw, name);
      if n <= |raw| && raw[..n] == GzipHeader(name, U32(raw, 4)) {
        HeaderPasses(raw, name);
        CanonicalByBody(raw, n, |raw|, Some(name), None, tar);
      } else {
        forall f, t ensures !StartsWithHeader(raw, f, t, Some(name), None) {
          if StartsWithHeader(raw, f, t, Some(name), None) {
            HeaderTime(raw, f, t);
          }
        }
        NotCanonical(raw, |raw|, Some(name), None);
      }
    } else {
      NotHonest(raw, tar, name);
    }
  }

  lemma HeaderTime(raw: bytes, f: bytes, t: nat)
    requires t < WORD && 11 + |f| <= |raw| && raw[..11 + |f|] == GzipHeader(f, t)
    ensures U32(raw, 4) == t
  {
    HeaderFields(raw[..11 + |f|], f, t);
  }

  lemma NotHonest(raw: bytes, tar: bytes, name: bytes)
    requires |raw| > MAX_ARTIFACT_BYTES
    ensures !CanonicalFile(raw, |raw|, tar, Some(name), None)
  {
  }

  /** Every output of the canonicalizer passes both stages of the release verifier, which
      reads out of it the entries that were stored. */
  lemma VerifierAcceptsCanonical(raw: bytes, c: bytes, build: Build) returns (tar: bytes, stored: seq<TarEntry>)
    requires Canonicalizes(raw, c, build) && TarNameOk(build.tarName)
    ensures CanonicalFile(c, |c|, tar, Some(build.tarName), Some(build.timestamp))
    ensures forall ms :: CanonicalLayout(tar, ms, build.timestamp) <==> ms == EntryMembers(stored)
    ensures SourceEntries(tar, build.policy) == Some(stored)
  {
    hide TopologyOk, SafeEntry, Writable, ValidUtf8, EntriesTar, AliasesDistinct, StoredGzip, SourceEntries;
    hide Sort, Sorted, Shapes, Normalized, ContentsKept, CanonicalLayout, EntryMembers, CanonicalFile, TextNames, Packed;
    var input: bytes :| UnpacksTo(raw, input, c, build);
    NameIsAscii(raw, input, build);
    stored := Stored(raw, input, c, build);
    PackedIsCanonical(stored, c, build);
    tar := EntriesTar(stored, build.timestamp);
    WriterRoundTrip(stored, build.policy, build.timestamp);
    ReadBack(stored, build);
  }

  lemma PackedIsCanonical(stored: seq<TarEntry>, c: bytes, build: Build)
    requires Packed(stored, c, build) && Sort(stored, ByName) == stored && TarNameOk(build.tarName)
    ensures TextNames(stored) && TimestampOk(build.timestamp)
    ensures CanonicalFile(c, |c|, EntriesTar(stored, build.timestamp), Some(build.tarName), Some(build.timestamp))
  {
    hide Writable, ValidUtf8, EntriesTar, StoredGzip, Sort;
    var tar := EntriesTar(stored, build.timestamp);
    assert WrittenAs(c, tar, build.tarName, build.timestamp, Some(build.tarName), Some(build.timestamp));
  }

  lemma ReadBack(stored: seq<TarEntry>, build: Build)
    requires TopologyOk(Shapes(stored)) && TimestampOk(build.timestamp) && TextNames(stored)
    requires SafeEntries(stored, build.policy, build.timestamp) && AliasesDistinct(stored, build.policy)
    ensures SourceEntries(EntriesTar(stored, build.timestamp), build.policy) == Some(stored)
  {
    hide TopologyOk, ParseSource, EntriesTar, SafeEntry, Alias;
    CanonicalIsSource(stored, build.policy, build.timestamp);
    CollectComplete(stored, {}, 0, 0, build.policy);
  }
}
