/** The stored-block gzip container of a canonical sdist (RFC 1952 section 2.3, RFC 1951
    section 3.2.4): the writer and the whole-buffer reader. */
module Gzip {
  import opened Outcomes
  import opened Bytes
  import opened Crc

  const BLOCK_MAX: nat := 65_535
  const WORD: nat := 0x1_0000_0000

  // ---- the format ----

  function Block(marker: byte, chunk: bytes): bytes
    requires |chunk| <= BLOCK_MAX
  {
    [marker] + LE16(|chunk|) + LE16(BLOCK_MAX - |chunk|) + chunk
  }

  /** The canonical segmentation: full blocks, then one final block that is empty only
      when the payload is. */
  function StoredBlocks(payload: bytes): bytes
    decreases |payload|
  {
    if |payload| <= BLOCK_MAX then Block(1, payload)
    else Block(0, payload[..BLOCK_MAX]) + StoredBlocks(payload[BLOCK_MAX..])
  }

  function StoredBody(payload: bytes): bytes
    requires |payload| < WORD
  {
    StoredBlocks(payload) + (LE32(Crc32(payload)) + LE32(|payload|))
  }

  function GzipHeader(filename: bytes, timestamp: nat): bytes
    requires timestamp < WORD
  {
    [0x1f, 0x8b, 8, 8] + LE32(timestamp) + [0, 0xff] + filename + [0]
  }

  function StoredGzip(payload: bytes, filename: bytes, timestamp: nat): bytes
    requires timestamp < WORD && |payload| < WORD
  {
    GzipHeader(filename, timestamp) + StoredBody(payload)
  }

  // ---- the writer ----

  /** Writing the block at `offset` leaves the canonical blocks of what follows it. */
  lemma NextBlock(payload: bytes, offset: nat, output: bytes)
    requires offset < |payload|
    ensures offset + BLOCK_MAX >= |payload| ==> StoredBlocks(payload[offset..]) == Block(1, payload[offset..])
    ensures offset + BLOCK_MAX < |payload| ==>
      (output + StoredBlocks(payload[offset..])
       == output + Block(0, payload[offset..offset + BLOCK_MAX]) + StoredBlocks(payload[offset + BLOCK_MAX..]))
  {
    var rest := payload[offset..];
    if offset + BLOCK_MAX < |payload| {
      var chunk := payload[offset..offset + BLOCK_MAX];
      var tail := payload[offset + BLOCK_MAX..];
      assert rest[..BLOCK_MAX] == chunk && rest[BLOCK_MAX..] == tail;
      assert output + (Block(0, chunk) + StoredBlocks(tail)) == output + Block(0, chunk) + StoredBlocks(tail);
    }
  }

  lemma EmptyBlocks()
    ensures StoredBlocks([]) == [1, 0, 0, 0xff, 0xff]
  {
    assert Block(1, []) == [1, 0, 0, 0xff, 0xff];
  }

  /** `_canonical_stored_gzip` */
  method CanonicalStoredGzip(payload: bytes, filename: bytes, timestamp: nat) returns (r: Result<bytes>)
    ensures r.Ok? <==> Ascii(filename) && timestamp < WORD && |payload| < WORD
    ensures r.Ok? ==> r.value == StoredGzip(payload, filename, timestamp)
  {
    hide Crc32, StoredBlocks, Block;
    if !Ascii(filename) {
      return Err("ascii codec can't encode the filename");
    }
    if timestamp >= WORD || |payload| >= WORD {
      return Err("argument out of range");
    }
    var head := GzipHeader(filename, timestamp);
    var output := head;
    if payload == [] {
      output := output + [1, 0, 0, 0xff, 0xff];
      EmptyBlocks();
    } else {
      var offset := 0;
      var final := false;
      while offset < |payload|
        invariant offset <= |payload|
        invariant final <==> offset == |payload|
        invariant final ==> output == head + StoredBlocks(payload)
        invariant !final ==> output + StoredBlocks(payload[offset..]) == head + StoredBlocks(payload)
      {
        var size := if offset + BLOCK_MAX <= |payload| then BLOCK_MAX else |payload| - offset;
        var chunk := payload[offset..offset + size];
        final := offset + size == |payload|;
        assert final ==> chunk == payload[offset..];
        NextBlock(payload, offset, output);
        output := output + Block(if final then 1 else 0, chunk);
        offset := offset + size;
      }
    }
    output := output + (LE32(Crc32(payload)) + LE32(|payload|));
    assert output == head + StoredBody(payload);
    return Ok(output);
  }

  // ---- what the block loops compute ----

  /** The payload of the blocks that fill `body` exactly; `started` says that payload
      bytes came before, which forbids an empty final block. */
  function ParseBlocks(body: bytes, started: bool): Option<bytes>
    decreases |body|
  {
    if |body| < 5 || body[0] !in {0, 1} then None
    else
      var size := U16(body, 1);
      if U16(body, 3) != BLOCK_MAX - size || 5 + size > |body| then None
      else if body[0] == 1 then
        if (size == 0 && started) || 5 + size != |body| then None else Some(body[5..])
      else if size != BLOCK_MAX then None
      else
        match ParseBlocks(body[5 + size..], true)
        case None => None
        case Some(rest) => Some(body[5..5 + size] + rest)
  }

  lemma BlockFields(body: bytes, size: nat)
    requires 5 + size <= |body| && size <= BLOCK_MAX && body[0] in {0, 1}
    requires U16(body, 1) == size && U16(body, 3) == BLOCK_MAX - size
    ensures body[..5 + size] == Block(body[0], body[5..5 + size])
  {
    U16Exact(body, 1, size);
    U16Exact(body, 3, BLOCK_MAX - size);
    assert body[..5 + size] == [body[0]] + body[1..3] + body[3..5] + body[5..5 + size];
  }

  lemma BlockReads(marker: byte, chunk: bytes, rest: bytes)
    requires |chunk| <= BLOCK_MAX
    ensures var body := Block(marker, chunk) + rest;
      && |body| == 5 + |chunk| + |rest| && body[0] == marker
      && U16(body, 1) == |chunk| && U16(body, 3) == BLOCK_MAX - |chunk|
      && body[5..5 + |chunk|] == chunk && body[5 + |chunk|..] == rest
  {
    var body := Block(marker, chunk) + rest;
    U16Exact(body, 1, |chunk|);
    U16Exact(body, 3, BLOCK_MAX - |chunk|);
    assert body[1..3] == LE16(|chunk|);
    assert body[3..5] == LE16(BLOCK_MAX - |chunk|);
  }

  lemma {:induction false} ParsedIsCanonical(body: bytes, started: bool)
    requires ParseBlocks(body, started).Some?
    ensures var p := ParseBlocks(body, started).value;
      body == StoredBlocks(p) && (started ==> p != [])
    decreases |body|
  {
    var p := ParseBlocks(body, started).value;
    var size := U16(body, 1);
    BlockFields(body, size);
    if body[0] == 1 {
      assert body == body[..5 + size] && body[5..] == body[5..5 + size];
    } else {
      ParsedIsCanonical(body[5 + size..], true);
      assert p[..BLOCK_MAX] == body[5..5 + size];
      assert p[BLOCK_MAX..] == ParseBlocks(body[5 + size..], true).value;
      assert body == body[..5 + size] + body[5 + size..];
    }
  }

  lemma {:induction false} CanonicalParses(p: bytes, started: bool)
    requires started ==> p != []
    ensures ParseBlocks(StoredBlocks(p), started) == Some(p)
    decreases |p|
  {
    hide Block, U16;
    if |p| <= BLOCK_MAX {
      LastBlockParses(p, started);
      assert Block(1, p) + [] == Block(1, p);
    } else {
      CanonicalParses(p[BLOCK_MAX..], true);
      FullBlockParses(p[..BLOCK_MAX], StoredBlocks(p[BLOCK_MAX..]), started);
      assert p == p[..BLOCK_MAX] + p[BLOCK_MAX..];
    }
  }

  lemma LastBlockParses(p: bytes, started: bool)
    requires |p| <= BLOCK_MAX && (started ==> p != [])
    ensures ParseBlocks(Block(1, p) + [], started) == Some(p)
  {
    hide Block, U16;
    BlockReads(1, p, []);
    var body := Block(1, p) + [];
    assert body[5..] == body[5..5 + |p|];
  }

  lemma FullBlockParses(chunk: bytes, rest: bytes, started: bool)
    requires |chunk| == BLOCK_MAX
    ensures ParseBlocks(Block(0, chunk) + rest, started)
      == (var later := ParseBlocks(rest, true); if later.None? then None else Some(chunk + later.value))
  {
    hide Block, U16;
    BlockReads(0, chunk, rest);
  }

  /** Stored segmentation is a bijection between payloads and accepted block streams. */
  lemma StoredBlocksExact(body: bytes, p: bytes)
    ensures ParseBlocks(body, false) == Some(p) <==> body == StoredBlocks(p)
  {
    if ParseBlocks(body, false) == Some(p) {
      ParsedIsCanonical(body, false);
    }
    if body == StoredBlocks(p) {
      CanonicalParses(p, false);
    }
  }

  /** `body` is the stored encoding of `p`, within the reader's bound. */
  ghost predicate Encodes(body: bytes, p: bytes, maximum: nat) {
    |p| <= maximum && |p| < WORD && body == StoredBody(p)
  }

  /** A body is the encoding of `p` exactly when its blocks parse to `p` and its trailer
      holds the checksum and the length of `p`. */
  lemma BodySplits(body: bytes, p: bytes)
    requires |body| >= 8 && |p| < WORD
    ensures body == StoredBody(p) <==>
      && ParseBlocks(body[..|body| - 8], false) == Some(p)
      && U32(body, |body| - 8) == Crc32(p) && U32(body, |body| - 4) == |p|
  {
    var cut := |body| - 8;
    var crc, size := LE32(Crc32(p)), LE32(|p|);
    var trailer := body[cut..];
    StoredBlocksExact(body[..cut], p);
    ConcatSplits(body, cut, StoredBlocks(p), crc + size);
    ConcatSplits(trailer, 4, crc, size);
    assert trailer[..4] == body[cut..cut + 4] && trailer[4..] == body[cut + 4..cut + 8];
    U32Exact(body, cut, Crc32(p));
    U32Exact(body, cut + 4, |p|);
  }

  lemma ShortBodies(body: bytes, maximum: nat)
    requires |body| <= 8
    ensures forall p :: !Encodes(body, p, maximum)
  {
  }

  lemma Unparsed(body: bytes, maximum: nat)
    requires |body| >= 8
    requires var parsed := ParseBlocks(body[..|body| - 8], false);
      parsed.None? || |parsed.value| > maximum || U32(body, |body| - 8) != Crc32(parsed.value)
      || U32(body, |body| - 4) != |parsed.value|
    ensures forall p :: !Encodes(body, p, maximum)
  {
    forall p ensures !Encodes(body, p, maximum) {
      if |p| < WORD { BodySplits(body, p); }
    }
  }

  lemma Parsed(body: bytes, maximum: nat, q: bytes)
    requires |body| >= 8 && |q| <= maximum
    requires ParseBlocks(body[..|body| - 8], false) == Some(q)
    requires U32(body, |body| - 8) == Crc32(q) && U32(body, |body| - 4) == |q|
    ensures forall p :: Encodes(body, p, maximum) <==> p == q
  {
    forall p ensures Encodes(body, p, maximum) <==> p == q {
      if |p| < WORD { BodySplits(body, p); }
    }
  }

  // ---- one turn of a block loop ----

  function Resumed(done: bytes, rest: Option<bytes>): Option<bytes> {
    if rest.None? then None else Some(done + rest.value)
  }

  /** `payload` is decoded, `rest` is unread, and `final` says the final block was read. */
  ghost predicate Progress(blocks: bytes, payload: bytes, rest: bytes, final: bool) {
    ParseBlocks(blocks, false)
      == if final then (if rest == [] then Some(payload) else None)
         else Resumed(payload, ParseBlocks(rest, payload != []))
  }

  lemma Starts(blocks: bytes)
    ensures Progress(blocks, [], blocks, false)
  {
    var parsed := ParseBlocks(blocks, false);
    assert parsed.Some? ==> [] + parsed.value == parsed.value;
  }

  predicate BlockHeaderOk(rest: bytes, started: bool) {
    && |rest| >= 5 && rest[0] in {0, 1}
    && U16(rest, 3) == BLOCK_MAX - U16(rest, 1)
    && 5 + U16(rest, 1) <= |rest|
    && (rest[0] == 0 ==> U16(rest, 1) == BLOCK_MAX)
    && !(rest[0] == 1 && U16(rest, 1) == 0 && started)
  }

  lemma ReadsBlock(blocks: bytes, payload: bytes, rest: bytes)
    requires Progress(blocks, payload, rest, false) && BlockHeaderOk(rest, payload != [])
    ensures var end := 5 + U16(rest, 1);
      Progress(blocks, payload + rest[5..end], rest[end..], rest[0] == 1)
  {
    var end := 5 + U16(rest, 1);
    if rest[0] == 1 {
      assert end == |rest| ==> rest[5..] == rest[5..end];
    } else {
      var later := ParseBlocks(rest[end..], true);
      if later.Some? {
        assert payload + (rest[5..end] + later.value) == payload + rest[5..end] + later.value;
      }
    }
  }

  lemma RejectsBlock(blocks: bytes, payload: bytes, rest: bytes)
    requires Progress(blocks, payload, rest, false) && !BlockHeaderOk(rest, payload != [])
    ensures ParseBlocks(blocks, false) == None
  {
  }

  /** A loop that has run out of blocks without a final one, or that stopped at a final
      block with bytes left, has no parse; otherwise its payload is the parse. */
  lemma LoopVerdict(blocks: bytes, payload: bytes, rest: bytes, final: bool)
    requires Progress(blocks, payload, rest, final) && (final || rest == [])
    ensures ParseBlocks(blocks, false) == if final && rest == [] then Some(payload) else None
  {
  }

  lemma Overlong(blocks: bytes, payload: bytes, rest: bytes, final: bool)
    requires Progress(blocks, payload, rest, final)
    ensures var parsed := ParseBlocks(blocks, false); parsed.Some? ==> |parsed.value| >= |payload|
  {
  }

  /** The complaint about a block header that says `size` and its complement `inverse`,
      with room for at most `room` more payload bytes. */
  function BlockProblem(marker: byte, size: nat, inverse: nat, room: int, started: bool): Option<string> {
    if marker !in {0, 1} then Some("stored gzip block header is noncanonical")
    else if inverse != BLOCK_MAX - size then Some("stored gzip block length is invalid")
    else if size > room then Some("stored gzip block exceeds its boundary")
    else if (marker == 0 && size != BLOCK_MAX) || (marker == 1 && size == 0 && started) then
      Some("stored gzip segmentation is noncanonical")
    else None
  }

  lemma SliceU16(raw: bytes, from: nat, end: nat, at: nat)
    requires from <= end <= |raw| && from + at + 2 <= end
    ensures U16(raw[from..end], at) == U16(raw, from + at)
  {
  }

  lemma SliceU32(raw: bytes, from: nat, at: nat)
    requires from + at + 4 <= |raw|
    ensures U32(raw[from..], at) == U32(raw, from + at)
  {
    hide U16;
    assert raw[from..] == raw[from..|raw|];
    SliceU16(raw, from, |raw|, at);
    SliceU16(raw, from, |raw|, at + 2);
  }

  /** The checks on the block header at `cursor`; a good one gives the end of its block. */
  function BlockEnd(raw: bytes, cursor: nat, trailerStart: nat, started: bool): Result<nat>
    requires cursor < trailerStart <= |raw|
  {
    if raw[cursor] !in {0, 1} || cursor + 5 > trailerStart then
      Err("stored gzip block header is noncanonical")
    else
      var size := U16(raw, cursor + 1);
      var problem := BlockProblem(raw[cursor], size, U16(raw, cursor + 3), trailerStart - (cursor + 5), started);
      if problem.Some? then Err(problem.value) else Ok(cursor + 5 + size)
  }

  lemma BlockEndExact(raw: bytes, cursor: nat, trailerStart: nat, started: bool)
    requires cursor < trailerStart <= |raw|
    ensures var end, rest := BlockEnd(raw, cursor, trailerStart, started), raw[cursor..trailerStart];
      && (end.Ok? <==> BlockHeaderOk(rest, started))
      && (end.Ok? ==> end.value == cursor + 5 + U16(rest, 1) <= trailerStart)
  {
    hide U16;
    if cursor + 5 <= trailerStart {
      SliceU16(raw, cursor, trailerStart, 1);
      SliceU16(raw, cursor, trailerStart, 3);
    }
  }

  // ---- the whole-buffer reader ----

  /** `_stored_gzip_payload` */
  method StoredGzipPayload(raw: bytes, payloadStart: nat, maximumPayload: nat) returns (r: Result<bytes>)
    ensures forall p :: r == Ok(p) <==>
      payloadStart <= |raw| && Encodes(raw[payloadStart..], p, maximumPayload)
  {
    hide ParseBlocks, StoredBlocks, Update, Progress, Encodes, U16, U32, BlockEnd, BlockHeaderOk, Crc32;
    var trailerStart: int := |raw| - 8;
    if payloadStart >= trailerStart {
      if payloadStart <= |raw| { ShortBodies(raw[payloadStart..], maximumPayload); }
      return Err("stored gzip stream is truncated");
    }
    ghost var body := raw[payloadStart..];
    ghost var blocks := raw[payloadStart..trailerStart];
    assert blocks == body[..|body| - 8];
    var payload := [];
    var cursor := payloadStart;
    var final := false;
    Starts(blocks);
    while cursor < trailerStart && !final
      invariant payloadStart <= cursor <= trailerStart && |payload| <= maximumPayload
      invariant Progress(blocks, payload, raw[cursor..trailerStart], final)
      decreases trailerStart - cursor
    {
      ghost var rest := raw[cursor..trailerStart];
      var blockEnd := BlockEnd(raw, cursor, trailerStart, payload != []);
      BlockEndExact(raw, cursor, trailerStart, payload != []);
      if blockEnd.Err? {
        RejectsBlock(blocks, payload, rest);
        Unparsed(body, maximumPayload);
        return Err(blockEnd.reason);
      }
      final := raw[cursor] == 1;
      ReadsBlock(blocks, payload, rest);
      Reslice(raw, cursor, trailerStart, 5, blockEnd.value - cursor);
      payload := payload + raw[cursor + 5..blockEnd.value];
      cursor := blockEnd.value;
      if |payload| > maximumPayload {
        Overlong(blocks, payload, raw[cursor..trailerStart], final);
        Unparsed(body, maximumPayload);
        return Err("gzip stream exceeds its exact boundary");
      }
    }
    LoopVerdict(blocks, payload, raw[cursor..trailerStart], final);
    if !final || cursor != trailerStart {
      Unparsed(body, maximumPayload);
      return Err("stored gzip stream has trailing or missing blocks");
    }
    var expectedCrc := U32(raw, trailerStart);
    var expectedSize := U32(raw, trailerStart + 4);
    SliceU32(raw, payloadStart, |body| - 8);
    SliceU32(raw, payloadStart, |body| - 4);
    if expectedCrc != Crc32(payload) || expectedSize != |payload| {
      Unparsed(body, maximumPayload);
      return Err("stored gzip trailer is invalid");
    }
    Parsed(body, maximumPayload, payload);
    return Ok(payload);
  }
}
