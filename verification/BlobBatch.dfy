/** The answer of `git cat-file --batch`: one frame for each requested blob, parsed by a cursor
    that accepts nothing but those frames. */
module BlobBatch {
  import opened Outcomes
  import opened Bytes
  import opened ReleaseContract

  const MAX_GIT_BATCH_OVERHEAD_BYTES := 128
  const BLOB: bytes := [0x20, 0x62, 0x6c, 0x6f, 0x62, 0x20]

  datatype ReleaseEntry = ReleaseEntry(path: bytes, objectId: bytes, size: nat)

  /** The hex digest of `blob <size>\0<payload>`. */
  type ObjectHash = (nat, bytes) -> bytes

  predicate Hex(s: bytes) {
    forall i :: 0 <= i < |s| ==> 0x30 <= s[i] <= 0x39 || 0x61 <= s[i] <= 0x66
  }

  predicate ObjectId(s: bytes) {
    |s| in {40, 64} && Hex(s)
  }

  const HEX_DIGITS: bytes :=
    [0x30, 0x31, 0x32, 0x33, 0x34, 0x35, 0x36, 0x37, 0x38, 0x39, 0x61, 0x62, 0x63, 0x64, 0x65, 0x66]

  /** Forty or sixty-four lower-case hexadecimal digits. */
  lemma ObjectIdExactly(s: bytes)
    ensures ObjectId(s) <==> (|s| == 40 || |s| == 64) && forall b :: b in s ==> b in HEX_DIGITS
  {
    forall b: byte ensures b in HEX_DIGITS <==> 0x30 <= b <= 0x39 || 0x61 <= b <= 0x66 { HexDigit(b); }
    assert forall i :: 0 <= i < |s| ==> s[i] in s;
  }

  lemma HexDigit(b: byte)
    ensures b in HEX_DIGITS <==> 0x30 <= b <= 0x39 || 0x61 <= b <= 0x66
  {
    if 0x30 <= b <= 0x39 { assert HEX_DIGITS[b - 0x30] == b; }
    if 0x61 <= b <= 0x66 { assert HEX_DIGITS[b - 0x61 + 10] == b; }
  }

  // ---- frames ----

  function Header(e: ReleaseEntry): bytes {
    e.objectId + BLOB + Dec(e.size)
  }

  function Frame(e: ReleaseEntry, payload: bytes): bytes {
    Header(e) + [NEWLINE] + payload + [NEWLINE]
  }

  function Frames(entries: seq<ReleaseEntry>, payloads: seq<bytes>): bytes
    requires |entries| == |payloads|
  {
    if entries == [] then [] else Frame(entries[0], payloads[0]) + Frames(entries[1..], payloads[1..])
  }

  /** The payload an entry stands for: of its size and with its object identifier as digest. */
  predicate Genuine(e: ReleaseEntry, payload: bytes, hash: ObjectHash) {
    |payload| == e.size && hash(e.size, payload) == e.objectId
  }

  predicate AllGenuine(entries: seq<ReleaseEntry>, payloads: seq<bytes>, hash: ObjectHash) {
    |entries| == |payloads| && forall i :: 0 <= i < |entries| ==> Genuine(entries[i], payloads[i], hash)
  }

  /** The output is the frames of these genuine payloads and nothing else. */
  predicate Answers(entries: seq<ReleaseEntry>, payloads: seq<bytes>, output: bytes, hash: ObjectHash) {
    AllGenuine(entries, payloads, hash) && output == Frames(entries, payloads)
  }

  /** An entry whose header line the parser's window can hold. */
  predicate Fits(e: ReleaseEntry) {
    ObjectId(e.objectId) && |Header(e)| < MAX_GIT_BATCH_OVERHEAD_BYTES
  }

  // ---- the parser ----

  /** `([0-9a-f]{40}|[0-9a-f]{64}) blob (0|[1-9][0-9]*)\Z` */
  function HeaderParts(header: bytes): (r: Option<(bytes, bytes)>)
    ensures r.Some? ==> header == r.value.0 + BLOB + r.value.1 && ObjectId(r.value.0) && CanonicalDec(r.value.1)
  {
    if |header| > 46 && Hex(header[..40]) && header[40..46] == BLOB && CanonicalDec(header[46..]) then
      assert header == header[..40] + header[40..46] + header[46..];
      Some((header[..40], header[46..]))
    else if |header| > 70 && Hex(header[..64]) && header[64..70] == BLOB && CanonicalDec(header[70..]) then
      assert header == header[..64] + header[64..70] + header[70..];
      Some((header[..64], header[70..]))
    else None
  }

  /** One turn of the loop: the payload and what follows its frame. */
  function TakeFrame(e: ReleaseEntry, rest: bytes, hash: ObjectHash): (r: Result<(bytes, bytes)>)
    ensures r.Ok? ==> |r.value.1| < |rest|
  {
    var end := Find(rest, NEWLINE, 0);
    if end >= |rest| || end >= MAX_GIT_BATCH_OVERHEAD_BYTES then Err("header is missing or overlong")
    else
      var parts := HeaderParts(rest[..end]);
      if parts.None? then Err("header is malformed")
      else if parts.value.0 != e.objectId || parts.value.1 != Dec(e.size) then Err("identity mismatch")
      else
        var stop := end + 1 + e.size;
        if stop >= |rest| || rest[stop] != NEWLINE then Err("payload is truncated")
        else if hash(e.size, rest[end + 1..stop]) != e.objectId then Err("payload failed object verification")
        else Ok((rest[end + 1..stop], rest[stop + 1..]))
  }

  function Parsed(entries: seq<ReleaseEntry>, rest: bytes, hash: ObjectHash): Result<seq<bytes>> {
    if entries == [] then (if rest == [] then Ok([]) else Err("trailing or unrequested content"))
    else
      var first := TakeFrame(entries[0], rest, hash);
      if first.Err? then Err(first.reason)
      else
        var more := Parsed(entries[1..], first.value.1, hash);
        if more.Err? then more else Ok([first.value.0] + more.value)
  }

  function Prefixed(payloads: seq<bytes>, r: Result<seq<bytes>>): Result<seq<bytes>> {
    if r.Err? then r else Ok(payloads + r.value)
  }

  /** The first newline of the answer from `cursor` on, inside the window; none otherwise. */
  method FindLineEnd(output: bytes, cursor: nat) returns (lineEnd: Option<nat>)
    requires cursor <= |output|
    ensures var end := Find(output[cursor..], NEWLINE, 0);
      lineEnd == if end < |output| - cursor && end < MAX_GIT_BATCH_OVERHEAD_BYTES then Some(cursor + end) else None
  {
    var rest := output[cursor..];
    var at := cursor;
    while at < |output| && at < cursor + MAX_GIT_BATCH_OVERHEAD_BYTES
      invariant cursor <= at <= |output| && at <= cursor + MAX_GIT_BATCH_OVERHEAD_BYTES
      invariant at - cursor <= Find(rest, NEWLINE, 0)
    {
      if output[at] == NEWLINE {
        assert rest[at - cursor] == NEWLINE;
        return Some(at);
      }
      assert rest[at - cursor] != NEWLINE;
      at := at + 1;
    }
    return None;
  }

  /** What a turn does, in terms of the whole answer. */
  lemma TakeFrameAt(e: ReleaseEntry, output: bytes, cursor: nat, hash: ObjectHash, lineEnd: nat)
    requires cursor <= lineEnd < |output| && lineEnd - cursor == Find(output[cursor..], NEWLINE, 0) < MAX_GIT_BATCH_OVERHEAD_BYTES
    ensures var parts, start, end := HeaderParts(output[cursor..lineEnd]), lineEnd + 1, lineEnd + 1 + e.size;
      TakeFrame(e, output[cursor..], hash)
      == if parts.None? then Err("header is malformed")
         else if parts.value.0 != e.objectId || parts.value.1 != Dec(e.size) then Err("identity mismatch")
         else if end >= |output| || output[end] != NEWLINE then Err("payload is truncated")
         else if hash(e.size, output[start..end]) != e.objectId then Err("payload failed object verification")
         else Ok((output[start..end], output[end + 1..]))
  {
    hide HeaderParts, Dec, Find;
    var end := lineEnd + 1 + e.size;
    SliceOf(output, cursor, cursor, lineEnd);
    if end < |output| {
      SliceOf(output, cursor, lineEnd + 1, end);
      SliceOf(output, cursor, end + 1, |output|);
    }
  }

  lemma NoLine(e: ReleaseEntry, rest: bytes, hash: ObjectHash)
    requires Find(rest, NEWLINE, 0) >= |rest| || Find(rest, NEWLINE, 0) >= MAX_GIT_BATCH_OVERHEAD_BYTES
    ensures TakeFrame(e, rest, hash) == Err("header is missing or overlong")
  {
    hide HeaderParts, Dec, Find;
  }

  /** One turn of the loop, on the whole answer: the payload and the next cursor. */
  method TakeBlob(entry: ReleaseEntry, output: bytes, cursor: nat, hash: ObjectHash) returns (r: Result<(bytes, nat)>)
    requires cursor <= |output|
    ensures r.Ok? ==> r.value.1 <= |output|
    ensures TakeFrame(entry, output[cursor..], hash) == if r.Err? then Err(r.reason) else Ok((r.value.0, output[r.value.1..]))
  {
    hide TakeFrame, HeaderParts, Dec, Find;
    var lineEnd := FindLineEnd(output, cursor);
    if lineEnd.None? {
      NoLine(entry, output[cursor..], hash);
      return Err("header is missing or overlong");
    }
    TakeFrameAt(entry, output, cursor, hash, lineEnd.value);
    var parts := HeaderParts(output[cursor..lineEnd.value]);
    if parts.None? {
      return Err("header is malformed");
    }
    if parts.value.0 != entry.objectId || parts.value.1 != Dec(entry.size) {
      return Err("identity mismatch");
    }
    var start := lineEnd.value + 1;
    var end := start + entry.size;
    if end >= |output| || output[end] != NEWLINE {
      return Err("payload is truncated");
    }
    if hash(entry.size, output[start..end]) != entry.objectId {
      return Err("payload failed object verification");
    }
    return Ok((output[start..end], end + 1));
  }

  lemma SliceOf(output: bytes, cursor: nat, from: nat, end: nat)
    requires cursor <= from <= end <= |output|
    ensures output[cursor..][from - cursor..end - cursor] == output[from..end]
    ensures end == |output| ==> output[cursor..][from - cursor..] == output[from..]
  {
  }

  /** `_parse_blob_batch` */
  method ParseBlobBatch(entries: seq<ReleaseEntry>, output: bytes, hash: ObjectHash) returns (r: Result<seq<bytes>>)
    ensures r == Parsed(entries, output, hash)
    ensures (forall i :: 0 <= i < |entries| ==> Fits(entries[i])) ==>
      forall payloads :: r == Ok(payloads) <==> Answers(entries, payloads, output, hash)
  {
    hide TakeFrame, Fits, Answers;
    var payloads: seq<bytes> := [];
    var cursor: nat := 0;
    assert output[0..] == output && entries[0..] == entries;
    NothingBefore(Parsed(entries, output, hash));
    ParsedExact(entries, output, hash);
    for k := 0 to |entries|
      invariant cursor <= |output|
      invariant Parsed(entries, output, hash) == Prefixed(payloads, Parsed(entries[k..], output[cursor..], hash))
    {
      assert entries[k..][0] == entries[k] && entries[k..][1..] == entries[k + 1..];
      var step := TakeBlob(entries[k], output, cursor, hash);
      if step.Err? {
        return Err(step.reason);
      }
      PrefixedStep(payloads, entries[k..], output[cursor..], hash);
      payloads := payloads + [step.value.0];
      cursor := step.value.1;
    }
    assert entries[|entries|..] == [];
    assert cursor < |output| ==> output[cursor..] != [];
    if cursor != |output| {
      return Err("trailing or unrequested content");
    }
    assert payloads + [] == payloads;
    return Ok(payloads);
  }

  lemma NothingBefore(r: Result<seq<bytes>>)
    ensures Prefixed([], r) == r
  {
    if r.Ok? { assert [] + r.value == r.value; }
  }

  lemma PrefixedStep(payloads: seq<bytes>, entries: seq<ReleaseEntry>, rest: bytes, hash: ObjectHash)
    requires entries != [] && TakeFrame(entries[0], rest, hash).Ok?
    ensures var (payload, tail) := TakeFrame(entries[0], rest, hash).value;
      Prefixed(payloads, Parsed(entries, rest, hash)) == Prefixed(payloads + [payload], Parsed(entries[1..], tail, hash))
  {
    hide TakeFrame;
    var (payload, tail) := TakeFrame(entries[0], rest, hash).value;
    var more := Parsed(entries[1..], tail, hash);
    if more.Ok? { assert payloads + ([payload] + more.value) == payloads + [payload] + more.value; }
  }

  // ---- exactness ----

  lemma {:induction false} DecNoNewline(n: nat)
    ensures AllDigits(Dec(n)) && CanonicalDec(Dec(n))
  {
    DecRoundTrip(n);
  }

  lemma HeaderReads(e: ReleaseEntry)
    requires ObjectId(e.objectId)
    ensures HeaderParts(Header(e)) == Some((e.objectId, Dec(e.size)))
    ensures NEWLINE !in Header(e)
  {
    hide Dec;
    DecNoNewline(e.size);
    var h, n := Header(e), |e.objectId|;
    assert h[..n] == e.objectId && h[n..n + 6] == BLOB && h[n + 6..] == Dec(e.size);
    if n == 64 {
      assert h[40] == e.objectId[40] && h[40..46][0] == h[40];
    }
    forall i | 0 <= i < |h| ensures h[i] != NEWLINE {
      if i < n { assert h[i] == e.objectId[i]; } else if i < n + 6 { assert h[i] == BLOB[i - n]; } else { assert h[i] == Dec(e.size)[i - n - 6]; }
    }
  }

  lemma FindAt(s: bytes, at: nat)
    requires at < |s| && s[at] == NEWLINE && forall i :: 0 <= i < at ==> s[i] != NEWLINE
    ensures Find(s, NEWLINE, 0) == at
  {
    var f := Find(s, NEWLINE, 0);
    assert f <= at && f >= at;
  }

  /** A genuine frame at the front is taken. */
  lemma FrameIsTaken(e: ReleaseEntry, rest: bytes, hash: ObjectHash, payload: bytes, tail: bytes)
    requires Fits(e) && Genuine(e, payload, hash) && rest == Frame(e, payload) + tail
    ensures TakeFrame(e, rest, hash) == Ok((payload, tail))
  {
    hide HeaderParts, Dec, ObjectId, Hex;
    HeaderReads(e);
    var h := Header(e);
    var n, stop := |h|, |h| + 1 + e.size;
    assert rest[..n] == h && rest[n] == NEWLINE;
    assert forall i :: 0 <= i < n ==> rest[i] == h[i];
    FindAt(rest, n);
    assert rest[n + 1..stop] == payload && rest[stop] == NEWLINE && rest[stop + 1..] == tail;
  }

  /** What is taken is a genuine frame at the front. */
  lemma TakenIsFrame(e: ReleaseEntry, rest: bytes, hash: ObjectHash)
    requires TakeFrame(e, rest, hash).Ok?
    ensures var (payload, tail) := TakeFrame(e, rest, hash).value;
      Genuine(e, payload, hash) && rest == Frame(e, payload) + tail
  {
    hide Dec, ObjectId, Hex;
    var end := Find(rest, NEWLINE, 0);
    var stop := end + 1 + e.size;
    assert rest[..end] == Header(e);
    assert rest == rest[..end] + [rest[end]] + rest[end + 1..stop] + [rest[stop]] + rest[stop + 1..];
  }

  /** A frame is taken exactly when it stands first in what is left. */
  lemma TakeFrameExact(e: ReleaseEntry, rest: bytes, hash: ObjectHash, payload: bytes, tail: bytes)
    requires Fits(e)
    ensures TakeFrame(e, rest, hash) == Ok((payload, tail)) <==> Genuine(e, payload, hash) && rest == Frame(e, payload) + tail
  {
    hide TakeFrame, Genuine, Frame, Fits;
    if Genuine(e, payload, hash) && rest == Frame(e, payload) + tail {
      FrameIsTaken(e, rest, hash, payload, tail);
    }
    if TakeFrame(e, rest, hash) == Ok((payload, tail)) {
      TakenIsFrame(e, rest, hash);
    }
  }

  /** The parser accepts exactly the concatenated frames of genuine payloads, and returns those. */
  lemma {:induction false} ParsedExactly(entries: seq<ReleaseEntry>, output: bytes, hash: ObjectHash, payloads: seq<bytes>)
    requires forall i :: 0 <= i < |entries| ==> Fits(entries[i])
    ensures Parsed(entries, output, hash) == Ok(payloads) <==> Answers(entries, payloads, output, hash)
    decreases |entries|
  {
    hide TakeFrame, Genuine, Frame, Fits;
    if entries != [] {
      var first := TakeFrame(entries[0], output, hash);
      if first.Ok? {
        var (payload, tail) := first.value;
        TakeFrameExact(entries[0], output, hash, payload, tail);
        if payloads != [] {
          ParsedExactly(entries[1..], tail, hash, payloads[1..]);
          assert payloads == [payloads[0]] + payloads[1..];
        }
      }
      if Answers(entries, payloads, output, hash) {
        var tail := Frames(entries[1..], payloads[1..]);
        assert Genuine(entries[0], payloads[0], hash);
        TakeFrameExact(entries[0], output, hash, payloads[0], tail);
        ParsedExactly(entries[1..], tail, hash, payloads[1..]);
        assert payloads == [payloads[0]] + payloads[1..];
      }
    }
  }

  lemma ParsedExact(entries: seq<ReleaseEntry>, output: bytes, hash: ObjectHash)
    ensures (forall i :: 0 <= i < |entries| ==> Fits(entries[i])) ==>
      forall payloads :: Parsed(entries, output, hash) == Ok(payloads) <==> Answers(entries, payloads, output, hash)
  {
    hide Parsed, Answers, Fits;
    if forall i :: 0 <= i < |entries| ==> Fits(entries[i]) {
      forall payloads
        ensures Parsed(entries, output, hash) == Ok(payloads) <==> Answers(entries, payloads, output, hash)
      {
        ParsedExactly(entries, output, hash, payloads);
      }
    }
  }

  // ---- the budget ----

  function TotalSize(entries: seq<ReleaseEntry>): nat {
    if entries == [] then 0 else entries[0].size + TotalSize(entries[1..])
  }

  /** The stdout limit `_batch_blob_output` asks for. */
  function Budget(entries: seq<ReleaseEntry>): nat {
    TotalSize(entries) + |entries| * MAX_GIT_BATCH_OVERHEAD_BYTES
  }

  lemma {:induction false} DecLength(n: nat, k: nat)
    requires n < Pow(10, k) && k >= 1
    ensures |Dec(n)| <= k
  {
    assert Pow(10, 0) == 1 && Pow(10, k) == 10 * Pow(10, k - 1);
    if n >= 10 {
      DecLength(n / 10, k - 1);
    }
  }

  /** Entries as `_release_entries` collects them fit the window, with room for both newlines. */
  lemma ReleaseEntryFits(e: ReleaseEntry)
    requires ObjectId(e.objectId) && e.size <= MAX_MEMBER_BYTES
    ensures Fits(e) && |Header(e)| + 2 <= MAX_GIT_BATCH_OVERHEAD_BYTES
  {
    TenPower();
    DecLength(e.size, 10);
  }

  lemma TenPower()
    ensures Pow(10, 10) == 10000000000
  {
    assert Pow(10, 5) == 100000;
    assert Pow(10, 10) == 10 * (10 * (10 * (10 * (10 * Pow(10, 5)))));
  }

  /** The limit is never smaller than a genuine answer. */
  lemma {:induction false} BudgetSuffices(entries: seq<ReleaseEntry>, payloads: seq<bytes>, hash: ObjectHash)
    requires forall i :: 0 <= i < |entries| ==> ObjectId(entries[i].objectId) && entries[i].size <= MAX_MEMBER_BYTES
    requires AllGenuine(entries, payloads, hash)
    ensures |Frames(entries, payloads)| <= Budget(entries)
    decreases |entries|
  {
    hide Header, ObjectId;
    if entries != [] {
      ReleaseEntryFits(entries[0]);
      BudgetSuffices(entries[1..], payloads[1..], hash);
    }
  }
}
