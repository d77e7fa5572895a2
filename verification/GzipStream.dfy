/** The streaming reader of the release verifier: exact reads from a source that may
    return short chunks, an incremental CRC, and the same canonical language. */
module GzipStream {
  import opened Outcomes
  import opened Bytes
  import opened Crc
  import opened ReleaseContract
  import opened Gzip

  /** A binary stream over fixed contents.  `Read` may return fewer bytes than asked for,
      and returns none only at the end. */
  class ByteStream {
    const data: bytes
    var position: nat

    constructor (data: bytes)
      ensures this.data == data && position == 0
    {
      this.data := data;
      position := 0;
    }

    method Read(size: nat) returns (chunk: bytes)
      requires position <= |data|
      modifies this
      ensures old(position) <= position <= |data|
      ensures position - old(position) <= size
      ensures chunk == data[old(position)..position]
      ensures chunk == [] <==> size == 0 || old(position) == |data|
    {
      var available := if size <= |data| - position then size else |data| - position;
      var count := available;
      if available > 0 {
        count :| 1 <= count <= available;
      }
      chunk := data[position..position + count];
      position := position + count;
    }
  }

  /** `_BoundedGzipReader` */
  class BoundedGzipReader {
    const stream: ByteStream
    const physicalSize: nat
    var observed: nat

    /** Everything read so far came through this reader and respected both bounds. */
    ghost predicate Valid()
      reads this, stream
    {
      && observed == stream.position <= |stream.data|
      && observed <= physicalSize && observed <= MAX_ARTIFACT_BYTES
    }

    constructor (stream: ByteStream, physicalSize: nat)
      requires stream.position == 0
      ensures Valid() && this.stream == stream && this.physicalSize == physicalSize && observed == 0
    {
      this.stream := stream;
      this.physicalSize := physicalSize;
      observed := 0;
    }

    /** The bytes a bounded read can still deliver. */
    ghost function Reachable(): nat
      reads this, stream
    {
      if |stream.data| <= physicalSize && |stream.data| <= MAX_ARTIFACT_BYTES then |stream.data|
      else if physicalSize <= MAX_ARTIFACT_BYTES then physicalSize
      else MAX_ARTIFACT_BYTES
    }

    method ReadExact(size: nat) returns (r: Result<bytes>)
      requires Valid()
      modifies this, stream
      ensures r.Ok? <==> old(observed) + size <= Reachable()
      ensures r.Ok? ==> Valid() && observed == old(observed) + size
      ensures r.Ok? ==> r.value == stream.data[old(observed)..old(observed) + size]
    {
      var chunks := [];
      var remaining := size;
      while remaining > 0
        invariant Valid() && 0 <= remaining <= size
        invariant observed == old(observed) + (size - remaining)
        invariant chunks == stream.data[old(observed)..observed]
      {
        var request := if remaining <= READ_CHUNK_BYTES then remaining else READ_CHUNK_BYTES;
        var chunk := stream.Read(request);
        if chunk == [] {
          return Err("stored gzip stream is truncated");
        }
        observed := observed + |chunk|;
        if observed > physicalSize || observed > MAX_ARTIFACT_BYTES {
          return Err("sdist exceeds the physical size limit");
        }
        remaining := remaining - |chunk|;
        chunks := chunks + chunk;
      }
      return Ok(chunks);
    }

    method RequireEof() returns (r: Result<()>)
      requires Valid()
      modifies this, stream
      ensures r.Ok? <==> old(observed) == |stream.data| == physicalSize
    {
      var trailing := stream.Read(1);
      if trailing != [] || observed != physicalSize {
        return Err("compressed stream is shorter than its physical size");
      }
      return Ok(());
    }
  }

  /** The body of the loop of `_read_stored_gzip_payload`: one block header, its checks,
      and its payload. */
  method ReadBlock(reader: BoundedGzipReader, started: bool) returns (r: Result<(bool, bytes)>)
    requires reader.Valid() && reader.observed < reader.physicalSize - 8
    modifies reader, reader.stream
    ensures r.Ok? ==> reader.Valid() && old(reader.observed) + 5 <= reader.observed <= reader.physicalSize - 8
    ensures r.Ok? ==> r.value.1 == reader.stream.data[old(reader.observed) + 5..reader.observed]
    ensures var data, end := reader.stream.data, |reader.stream.data| - 8;
      end + 8 == reader.physicalSize <= MAX_ARTIFACT_BYTES ==>
        var rest := data[old(reader.observed)..end];
        && (r.Ok? <==> BlockHeaderOk(rest, started))
        && (r.Ok? ==> r.value.0 == (rest[0] == 1) && |r.value.1| == U16(rest, 1))
  {
    var header := reader.ReadExact(5);
    if header.Err? {
      return Err(header.reason);
    }
    var blockHeader := header.value;
    var marker := blockHeader[0];
    var blockSize := U16(blockHeader, 1);
    var inverseSize := U16(blockHeader, 3);
    var room := reader.physicalSize - reader.observed - 8;
    var problem := BlockProblem(marker, blockSize, inverseSize, room, started);
    if problem.Some? {
      return Err(problem.value);
    }
    var block := reader.ReadExact(blockSize);
    if block.Err? {
      return Err(block.reason);
    }
    return Ok((marker == 1, block.value));
  }

  /** The blocks between `from` and the trailer of an honestly measured file. */
  ghost function BlocksOf(data: bytes, from: nat): bytes {
    if from <= |data| - 8 then data[from..|data| - 8] else []
  }

  /** The file has the size that was measured before it was opened. */
  ghost predicate Honest(data: bytes, physicalSize: nat) {
    |data| == physicalSize <= MAX_ARTIFACT_BYTES
  }

  /** The loop of `_read_stored_gzip_payload`, with its checksum kept up to date. */
  method ReadBlocks(reader: BoundedGzipReader, maximumPayload: nat) returns (r: Result<(bytes, nat)>)
    requires reader.Valid()
    modifies reader, reader.stream
    ensures r.Ok? ==> reader.Valid() && old(reader.observed) <= reader.observed == reader.physicalSize - 8
    ensures r.Ok? ==> |r.value.0| <= maximumPayload && r.value.1 == Crc32(r.value.0)
    ensures Honest(reader.stream.data, reader.physicalSize) ==>
      var parsed := ParseBlocks(BlocksOf(reader.stream.data, old(reader.observed)), false);
      && (r.Ok? <==> parsed.Some? && |parsed.value| <= maximumPayload)
      && (r.Ok? ==> r.value.0 == parsed.value)
  {
    hide ParseBlocks, StoredBlocks, Fold, Progress, Update, U16, BlockHeaderOk;
    ghost var data, from := reader.stream.data, reader.observed;
    ghost var honest := Honest(data, reader.physicalSize);
    ghost var end := |data| - 8;
    ghost var blocks := BlocksOf(data, from);
    var payload := [];
    var crc := 0;
    EmptyCrc();
    var final := false;
    Starts(blocks);
    while reader.observed < reader.physicalSize - 8 && !final
      invariant reader.Valid() && from <= reader.observed
      invariant |payload| <= maximumPayload && crc == Crc32(payload)
      invariant honest && from < end ==> reader.observed <= end
      invariant honest && from < end ==> Progress(blocks, payload, data[reader.observed..end], final)
      invariant honest && from >= end ==> reader.observed == from && !final
      decreases reader.physicalSize - reader.observed
    {
      ghost var at := reader.observed;
      ghost var rest := if honest then data[at..end] else [];
      var next := ReadBlock(reader, payload != []);
      if next.Err? {
        if honest { RejectsBlock(blocks, payload, rest); }
        return Err(next.reason);
      }
      var block := next.value.1;
      final := next.value.0;
      if honest {
        ReadsBlock(blocks, payload, rest);
        Reslice(data, at, end, 5, 5 + |block|);
      }
      UpdateConcat(0, payload, block);
      payload := payload + block;
      crc := Update(crc, block);
      if |payload| > maximumPayload {
        if honest { Overlong(blocks, payload, data[reader.observed..end], final); }
        return Err("decompressed tar exceeds its size or compression-ratio limit");
      }
    }
    if honest {
      if from < end {
        LoopVerdict(blocks, payload, data[reader.observed..end], final);
      } else {
        NoBlocks();
      }
    }
    if !final || reader.observed != reader.physicalSize - 8 {
      return Err("sdist contains trailing data or multiple gzip members");
    }
    return Ok((payload, crc));
  }

  lemma NoBlocks()
    ensures ParseBlocks([], false) == None
  {
  }

  lemma EmptyCrc()
    ensures Crc32([]) == 0
  {
  }

  /** The unread part of the file is the stored encoding of `p`. */
  ghost predicate StreamEncodes(data: bytes, from: nat, physicalSize: nat, p: bytes, maximum: nat) {
    from <= |data| && Honest(data, physicalSize) && Encodes(data[from..], p, maximum)
  }

  /** `_read_stored_gzip_payload` */
  method ReadStoredGzipPayload(reader: BoundedGzipReader, maximumPayload: nat) returns (r: Result<bytes>)
    requires reader.Valid()
    modifies reader, reader.stream
    ensures forall p :: r == Ok(p) <==>
      StreamEncodes(reader.stream.data, old(reader.observed), reader.physicalSize, p, maximumPayload)
  {
    hide ParseBlocks, StoredBlocks, Crc32, Encodes;
    ghost var data, from := reader.stream.data, reader.observed;
    ghost var body := data[from..];
    ghost var honest := Honest(data, reader.physicalSize);
    if from <= |data| - 8 {
      assert BlocksOf(data, from) == body[..|body| - 8];
    } else {
      ShortBodies(body, maximumPayload);
    }
    var blocks := ReadBlocks(reader, maximumPayload);
    if blocks.Err? {
      if honest && from <= |data| - 8 { Unparsed(body, maximumPayload); }
      return Err(blocks.reason);
    }
    var (payload, crc) := blocks.value;
    var trailer := reader.ReadExact(8);
    if trailer.Err? {
      return trailer;
    }
    var expectedCrc := U32(trailer.value, 0);
    var expectedSize := U32(trailer.value, 4);
    if honest {
      assert U32(body, |body| - 8) == expectedCrc && U32(body, |body| - 4) == expectedSize;
    }
    if expectedCrc != crc || expectedSize != |payload| {
      if honest { Unparsed(body, maximumPayload); }
      return Err("stored gzip trailer is invalid");
    }
    var eof := reader.RequireEof();
    if eof.Err? {
      return Err(eof.reason);
    }
    Parsed(body, maximumPayload, payload);
    return Ok(payload);
  }

  // ---- the header ----

  /** The accepted member filenames: portable, bare, ending in `.tar`, and the one asked for. */
  ghost predicate FilenameOk(f: bytes, required: Option<bytes>) {
    && Ascii(f) && 0 !in f && SLASH !in f && |f| <= MAX_COMPONENT_BYTES
    && EndsWithTar(f)
    && (required.Some? ==> f == required.value)
  }

  predicate EndsWithTar(f: bytes) {
    |f| >= 4 && f[|f| - 4..] == [0x2e, 0x74, 0x61, 0x72]
  }

  /** The name is a stem and `.tar`. */
  lemma TarSuffix(f: bytes)
    ensures EndsWithTar(f) <==> exists stem :: f == stem + [0x2e, 0x74, 0x61, 0x72]
  {
    if EndsWithTar(f) { assert f == f[..|f| - 4] + [0x2e, 0x74, 0x61, 0x72]; }
    if stem :| f == stem + [0x2e, 0x74, 0x61, 0x72] { assert |stem| == |f| - 4; }
  }

  predicate NoNul(s: bytes, from: nat, to: nat)
    requires to <= |s|
  {
    forall i :: from <= i < to ==> s[i] != 0
  }

  /** `_read_stored_gzip_header`: ten fixed bytes, then the filename byte by byte up to its
      terminator or the length limit. */
  method ReadStoredGzipHeader(reader: BoundedGzipReader) returns (r: Result<bytes>)
    requires reader.Valid() && reader.observed == 0
    modifies reader, reader.stream
    ensures r.Ok? ==> reader.Valid() && 11 <= reader.observed <= 10 + MAX_COMPONENT_BYTES + 1
    ensures r.Ok? ==> r.value == reader.stream.data[..reader.observed]
    ensures r.Ok? ==> NoNul(r.value, 10, |r.value| - 1)
    ensures r.Ok? ==> r.value[|r.value| - 1] == 0 || |r.value| == 10 + MAX_COMPONENT_BYTES + 1
    ensures r.Err? && Honest(reader.stream.data, reader.physicalSize) ==>
      var data := reader.stream.data;
      |data| < 11 || (NoNul(data, 10, |data|) && |data| < 10 + MAX_COMPONENT_BYTES + 1)
  {
    var fixed := reader.ReadExact(10);
    if fixed.Err? {
      return fixed;
    }
    var encodedFilename := [];
    var index := 0;
    while index < MAX_COMPONENT_BYTES + 1
      invariant index <= MAX_COMPONENT_BYTES + 1 && |encodedFilename| == index
      invariant reader.Valid() && reader.observed == 10 + index
      invariant fixed.value + encodedFilename == reader.stream.data[..reader.observed]
      invariant NoNul(reader.stream.data, 10, reader.observed)
    {
      var encoded := reader.ReadExact(1);
      if encoded.Err? {
        return encoded;
      }
      encodedFilename := encodedFilename + encoded.value;
      index := index + 1;
      assert fixed.value + encodedFilename == reader.stream.data[..reader.observed];
      if encoded.value == [0] {
        break;
      }
    }
    r := Ok(fixed.value + encodedFilename);
  }

  /** `_validate_gzip_header` */
  function HeaderProblem(header: bytes, required: Option<bytes>, expectedMtime: Option<nat>): Option<string> {
    if |header| < 11 || header[..4] != [0x1f, 0x8b, 8, 8] then Some("gzip header is noncanonical")
    else if header[8] != 0 || header[9] != 255 then Some("gzip compression header is noncanonical")
    else if expectedMtime.Some? && (expectedMtime.value >= WORD || U32(header, 4) != expectedMtime.value) then
      Some("gzip timestamp does not match the reviewed commit")
    else
      var terminator := Find(header, 0, 10);
      if terminator == |header| || terminator >= 10 + MAX_COMPONENT_BYTES + 1 then
        Some("gzip filename is missing or exceeds its size limit")
      else
        var filename := header[10..terminator];
        if !Ascii(filename) then
          Some("gzip filename must be portable ASCII")
        else if SLASH in filename || !EndsWithTar(filename) then Some("gzip filename is noncanonical")
        else if required.Some? && filename != required.value then
          Some("gzip filename does not match its artifact name")
        else None
  }

  /** `data` starts with the canonical header for some accepted filename and timestamp. */
  ghost predicate StartsWithHeader(data: bytes, f: bytes, t: nat, required: Option<bytes>, expectedMtime: Option<nat>) {
    && FilenameOk(f, required) && t < WORD && (expectedMtime.Some? ==> t == expectedMtime.value)
    && 11 + |f| <= |data| && data[..11 + |f|] == GzipHeader(f, t)
  }

  lemma HeaderFields(h: bytes, f: bytes, t: nat)
    requires |h| == 11 + |f| && t < WORD
    ensures h == GzipHeader(f, t) <==>
      && h[..4] == [0x1f, 0x8b, 8, 8] && U32(h, 4) == t && h[8] == 0 && h[9] == 255
      && h[10..10 + |f|] == f && h[10 + |f|] == 0
  {
    U32Exact(h, 4, t);
    var g := GzipHeader(f, t);
    assert g[4..8] == LE32(t) && g[10..10 + |f|] == f;
    assert h == h[..4] + h[4..8] + [h[8], h[9]] + h[10..10 + |f|] + [h[10 + |f|]];
  }

  lemma FirstNul(data: bytes, f: bytes, t: nat)
    requires t < WORD && 0 !in f && 11 + |f| <= |data| && data[..11 + |f|] == GzipHeader(f, t)
    ensures forall n :: 11 + |f| <= n <= |data| ==> Find(data[..n], 0, 10) == 10 + |f|
  {
    HeaderFields(data[..11 + |f|], f, t);
    forall n | 11 + |f| <= n <= |data|
      ensures Find(data[..n], 0, 10) == 10 + |f|
    {
      assert forall i :: 10 <= i < 10 + |f| ==> data[i] == f[i - 10];
      assert data[10 + |f|] == 0;
    }
  }

  /** What the header check passes is a canonical header. */
  lemma HeaderAccepted(header: bytes, required: Option<bytes>, expectedMtime: Option<nat>)
    requires HeaderProblem(header, required, expectedMtime) == None
    requires NoNul(header, 10, |header| - 1)
    ensures StartsWithHeader(header, header[10..|header| - 1], U32(header, 4), required, expectedMtime)
  {
    var f := header[10..|header| - 1];
    assert Find(header, 0, 10) == |header| - 1;
    forall i | 0 <= i < |f| ensures f[i] != 0 {
      assert f[i] == header[10 + i];
    }
    HeaderFields(header, f, U32(header, 4));
    assert header[..11 + |f|] == header;
  }

  lemma HeaderLength(data: bytes, header: bytes, f: bytes, t: nat)
    requires t < WORD && 0 !in f && |f| <= MAX_COMPONENT_BYTES
    requires 11 + |f| <= |data| && data[..11 + |f|] == GzipHeader(f, t)
    requires 11 <= |header| <= |data| && header == data[..|header|] && NoNul(header, 10, |header| - 1)
    requires header[|header| - 1] == 0 || |header| == 10 + MAX_COMPONENT_BYTES + 1
    ensures header == GzipHeader(f, t)
  {
    HeaderFields(data[..11 + |f|], f, t);
    assert data[10 + |f|] == 0;
    assert forall i :: 10 <= i < 10 + |f| ==> data[i] == f[i - 10];
    assert forall i :: 0 <= i < |header| ==> data[i] == header[i];
    assert |header| - 1 <= 10 + |f|;
    assert |header| - 1 >= 10 + |f|;
  }

  lemma HeaderComplete(data: bytes, header: bytes, f: bytes, t: nat, required: Option<bytes>, expectedMtime: Option<nat>)
    requires StartsWithHeader(data, f, t, required, expectedMtime)
    requires 11 <= |header| <= |data| && header == data[..|header|] && NoNul(header, 10, |header| - 1)
    requires header[|header| - 1] == 0 || |header| == 10 + MAX_COMPONENT_BYTES + 1
    ensures HeaderProblem(header, required, expectedMtime) == None
  {
    HeaderLength(data, header, f, t);
    HeaderFields(header, f, t);
    FirstNul(header, f, t);
    assert header[..|header|] == header;
  }

  /** The check passes on a header, as it is read from a file, exactly when it is the canonical
      header of an accepted filename and time. */
  lemma HeaderVerdict(header: bytes, required: Option<bytes>, expectedMtime: Option<nat>)
    requires 11 <= |header| && NoNul(header, 10, |header| - 1)
    requires header[|header| - 1] == 0 || |header| == 10 + MAX_COMPONENT_BYTES + 1
    ensures HeaderProblem(header, required, expectedMtime) == None <==>
      exists f, t :: StartsWithHeader(header, f, t, required, expectedMtime)
  {
    hide HeaderProblem, StartsWithHeader;
    if HeaderProblem(header, required, expectedMtime) == None {
      HeaderAccepted(header, required, expectedMtime);
    }
    assert header == header[..|header|];
    forall f, t | StartsWithHeader(header, f, t, required, expectedMtime)
      ensures HeaderProblem(header, required, expectedMtime) == None
    {
      HeaderComplete(header, header, f, t, required, expectedMtime);
    }
  }

  // ---- the whole file ----

  function MaximumPayload(physicalSize: nat): nat {
    if physicalSize * MAX_COMPRESSION_RATIO < MAX_TAR_CONTAINER_BYTES then physicalSize * MAX_COMPRESSION_RATIO
    else MAX_TAR_CONTAINER_BYTES
  }

  /** What the canonical writer produces for `p` under an accepted name and timestamp. */
  ghost predicate WrittenAs(data: bytes, p: bytes, f: bytes, t: nat, required: Option<bytes>, expectedMtime: Option<nat>) {
    && FilenameOk(f, required) && t < WORD && (expectedMtime.Some? ==> t == expectedMtime.value)
    && |p| < WORD && data == StoredGzip(p, f, t)
  }

  /** The file is exactly such an output, within the reader's bounds. */
  ghost predicate CanonicalFile(data: bytes, physicalSize: nat, p: bytes, required: Option<bytes>, expectedMtime: Option<nat>) {
    && Honest(data, physicalSize) && |p| <= MaximumPayload(physicalSize)
    && exists f: bytes, t: nat :: WrittenAs(data, p, f, t, required, expectedMtime)
  }

  lemma FileSplits(data: bytes, p: bytes, f: bytes, t: nat, required: Option<bytes>, expectedMtime: Option<nat>)
    ensures WrittenAs(data, p, f, t, required, expectedMtime) <==>
      StartsWithHeader(data, f, t, required, expectedMtime) && |p| < WORD && data[11 + |f|..] == StoredBody(p)
  {
    hide Crc32, StoredBlocks;
    if t < WORD && |p| < WORD {
      var g := GzipHeader(f, t);
      assert |g| == 11 + |f|;
      if 11 + |f| <= |data| {
        ConcatSplits(data, 11 + |f|, g, StoredBody(p));
      }
    }
  }

  /** At most one filename and timestamp head a file. */
  lemma HeaderUnique(data: bytes, f: bytes, t: nat, f': bytes, t': nat, required: Option<bytes>, expectedMtime: Option<nat>)
    requires StartsWithHeader(data, f, t, required, expectedMtime)
    requires StartsWithHeader(data, f', t', required, expectedMtime)
    ensures f == f' && t == t'
  {
    FirstNul(data, f, t);
    FirstNul(data, f', t');
    assert Find(data[..|data|], 0, 10) == 10 + |f|;
    HeaderFields(data[..11 + |f|], f, t);
    HeaderFields(data[..11 + |f'|], f', t');
  }

  lemma NotCanonical(data: bytes, physicalSize: nat, required: Option<bytes>, expectedMtime: Option<nat>)
    requires Honest(data, physicalSize) ==>
      forall f, t :: !StartsWithHeader(data, f, t, required, expectedMtime)
    ensures forall p :: !CanonicalFile(data, physicalSize, p, required, expectedMtime)
  {
    hide WrittenAs, StartsWithHeader;
    forall p, f: bytes, t: nat { FileSplits(data, p, f, t, required, expectedMtime); }
  }

  lemma CanonicalByBody(data: bytes, n: nat, physicalSize: nat, required: Option<bytes>, expectedMtime: Option<nat>, p: bytes)
    requires 11 <= n <= |data| && NoNul(data, 10, n - 1)
    requires HeaderProblem(data[..n], required, expectedMtime) == None
    ensures CanonicalFile(data, physicalSize, p, required, expectedMtime)
      <==> StreamEncodes(data, n, physicalSize, p, MaximumPayload(physicalSize))
  {
    hide WrittenAs, StoredBody;
    var h := data[..n];
    HeaderAccepted(h, required, expectedMtime);
    var f, t := h[10..n - 1], U32(h, 4);
    assert data[..11 + |f|] == h[..11 + |f|];
    FileSplits(data, p, f, t, required, expectedMtime);
    if CanonicalFile(data, physicalSize, p, required, expectedMtime) {
      var f': bytes, t': nat :| WrittenAs(data, p, f', t', required, expectedMtime);
      FileSplits(data, p, f', t', required, expectedMtime);
      HeaderUnique(data, f, t, f', t', required, expectedMtime);
    }
  }

  /** `_decompress_single_gzip` */
  method DecompressSingleGzip(stream: ByteStream, physicalSize: nat, required: Option<bytes>, expectedMtime: Option<nat>)
    returns (r: Result<bytes>)
    requires stream.position == 0
    modifies stream
    ensures forall p :: r == Ok(p) <==> CanonicalFile(stream.data, physicalSize, p, required, expectedMtime)
  {
    hide HeaderProblem, CanonicalFile, StreamEncodes, StartsWithHeader;
    ghost var data := stream.data;
    var reader := new BoundedGzipReader(stream, physicalSize);
    var header := ReadStoredGzipHeader(reader);
    if header.Err? {
      TooShort(data, required, expectedMtime);
      NotCanonical(data, physicalSize, required, expectedMtime);
      return header;
    }
    ghost var n := |header.value|;
    var problem := HeaderProblem(header.value, required, expectedMtime);
    if problem.Some? {
      forall f, t ensures !StartsWithHeader(data, f, t, required, expectedMtime) {
        if StartsWithHeader(data, f, t, required, expectedMtime) {
          HeaderComplete(data, header.value, f, t, required, expectedMtime);
        }
      }
      NotCanonical(data, physicalSize, required, expectedMtime);
      return Err(problem.value);
    }
    forall p { CanonicalByBody(data, n, physicalSize, required, expectedMtime, p); }
    var maximum := physicalSize * MAX_COMPRESSION_RATIO;
    if MAX_TAR_CONTAINER_BYTES < maximum { maximum := MAX_TAR_CONTAINER_BYTES; }
    r := ReadStoredGzipPayload(reader, maximum);
  }

  lemma TooShort(data: bytes, required: Option<bytes>, expectedMtime: Option<nat>)
    ensures |data| < 11 || (NoNul(data, 10, |data|) && |data| < 10 + MAX_COMPONENT_BYTES + 1) ==>
      forall f, t :: !StartsWithHeader(data, f, t, required, expectedMtime)
  {
    forall f, t | StartsWithHeader(data, f, t, required, expectedMtime)
      ensures |data| >= 11 && data[10 + |f|] == 0
    {
      HeaderFields(data[..11 + |f|], f, t);
    }
  }
}
