/** PAX extended-header records (POSIX.1 `pax`, "pax Extended Header"): the writer's
    self-referential length, and the two parsers that read the records back. */
module Pax {
  import opened Outcomes
  import opened Bytes
  import opened Text

  const PATH_KEY: bytes := [0x70, 0x61, 0x74, 0x68]
  const MTIME_KEY: bytes := [0x6d, 0x74, 0x69, 0x6d, 0x65]

  // ---- the length of a record ----

  /** A record whose text after the length field has `body` bytes may announce `length`. */
  predicate FixedPoint(length: nat, body: nat) {
    |Dec(length)| + body == length
  }

  lemma {:induction false} DigitBounds(n: nat, k: nat)
    requires k >= 1
    ensures |Dec(n)| <= k <==> n < Pow(10, k)
    decreases k
  {
    if k == 1 {
      assert Pow(10, 1) == 10;
    } else {
      PowPositive(10, k - 1);
      assert Pow(10, k) == 10 * Pow(10, k - 1);
      if n >= 10 {
        DigitBounds(n / 10, k - 1);
      }
    }
  }

  lemma DigitMonotone(m: nat, n: nat)
    requires m <= n
    ensures |Dec(m)| <= |Dec(n)|
  {
    DigitBounds(n, |Dec(n)|);
    DigitBounds(m, |Dec(n)|);
  }

  lemma {:induction false} DigitHalf(n: nat)
    requires n >= 2
    ensures 2 * |Dec(n)| <= n
  {
    if n >= 20 {
      DigitHalf(n / 10);
    } else if n >= 10 {
      assert |Dec(n / 10)| == 1;
    }
  }

  lemma {:induction false} PowGrows(k: nat, d: nat)
    requires d >= 1
    ensures Pow(10, k + d) >= Pow(10, k) + 9 * d
    decreases d
  {
    PowPositive(10, k);
    if d > 1 {
      PowGrows(k, d - 1);
    }
    assert Pow(10, k + d) == 10 * Pow(10, k + d - 1);
  }

  /** The announced length is ambiguous in one family only: two different lengths fit the
      same body exactly when it has 10^k - k - 1 bytes, and then they are 10^k - 1 and 10^k. */
  lemma TwoLengths(short: nat, long: nat, body: nat)
    requires FixedPoint(short, body) && FixedPoint(long, body) && short < long
    ensures var k := |Dec(short)|;
      body + k + 1 == Pow(10, k) && short == Pow(10, k) - 1 && long == Pow(10, k)
  {
    var k, d := |Dec(short)|, long - short;
    assert |Dec(long)| == k + d;
    DigitBounds(short, k);
    DigitBounds(long, k + d - 1);
    if d > 1 {
      PowGrows(k, d - 1);
      assert false;
    }
  }

  lemma BothLengths(k: nat)
    requires k >= 1
    ensures Pow(10, k) >= k + 1
    ensures var body := Pow(10, k) - k - 1;
      FixedPoint(Pow(10, k) - 1, body) && FixedPoint(Pow(10, k), body)
  {
    PowPositive(10, k);
    PowGrows(0, k);
    DigitBounds(Pow(10, k) - 1, k);
    DigitBounds(Pow(10, k), k);
    DigitBounds(Pow(10, k), k + 1);
    assert Pow(10, k + 1) == 10 * Pow(10, k);
    if k > 1 {
      DigitBounds(Pow(10, k) - 1, k - 1);
      assert Pow(10, k) == 10 * Pow(10, k - 1);
      PowPositive(10, k - 1);
    }
  }

  /** The least length that fits. */
  ghost predicate LeastFixedPoint(length: nat, body: nat) {
    FixedPoint(length, body) && forall other: nat :: FixedPoint(other, body) ==> length <= other
  }

  /** The length the writer settles on, started from any underestimate. */
  function Settle(announced: nat, body: nat): (length: nat)
    requires body < announced <= 2 * body && announced <= |Dec(announced)| + body
    requires forall other: nat :: FixedPoint(other, body) ==> announced <= other
    ensures LeastFixedPoint(length, body)
    decreases 2 * body - announced
  {
    var next := |Dec(announced)| + body;
    if next == announced then announced
    else
      NextEstimate(announced, body);
      Settle(next, body)
  }

  lemma NextEstimate(announced: nat, body: nat)
    requires body < announced <= 2 * body && announced <= |Dec(announced)| + body
    requires forall other: nat :: FixedPoint(other, body) ==> announced <= other
    ensures var next := |Dec(announced)| + body;
      && body < next <= 2 * body && next <= |Dec(next)| + body
      && forall other: nat :: FixedPoint(other, body) ==> next <= other
  {
    var next := |Dec(announced)| + body;
    DigitHalf(2 * body);
    DigitMonotone(announced, 2 * body);
    DigitMonotone(announced, next);
    forall other: nat | FixedPoint(other, body)
      ensures next <= other
    {
      DigitMonotone(announced, other);
    }
  }

  /** The least length that fits a body of this size. */
  function PaxLength(body: nat): (length: nat)
    requires body >= 1
    ensures LeastFixedPoint(length, body)
  {
    Settle(body + 1, body)
  }

  /** Exactly one length fits, except in the family of `TwoLengths`. */
  lemma LengthUnique(length: nat, least: nat, body: nat)
    requires LeastFixedPoint(least, body)
    ensures FixedPoint(length, body) <==>
      length == least || (length == least + 1 == Pow(10, |Dec(least)|))
  {
    if FixedPoint(length, body) && length != least {
      TwoLengths(least, length, body);
    }
    if length == least + 1 == Pow(10, |Dec(least)|) {
      var k := |Dec(least)|;
      BothLengths(k);
    }
  }

  // ---- the writer ----

  function Record(length: nat, key: bytes, value: bytes): bytes {
    Dec(length) + ([SPACE] + key + [EQUALS] + value + [NEWLINE])
  }

  function RecordBody(key: bytes, value: bytes): nat {
    |key| + |value| + 3
  }

  /** `_pax_path_record` */
  method PaxPathRecord(path: bytes) returns (record: bytes)
    ensures LeastFixedPoint(|record|, RecordBody(PATH_KEY, path))
    ensures record == Record(|record|, PATH_KEY, path)
  {
    var body: bytes := [SPACE] + PATH_KEY + [EQUALS] + path + [NEWLINE];
    var length := |body| + 1;
    while |Dec(length)| + |body| != length
      invariant |body| < length <= 2 * |body| && length <= |Dec(length)| + |body|
      invariant forall other: nat :: FixedPoint(other, |body|) ==> length <= other
      decreases 2 * |body| - length
    {
      NextEstimate(length, |body|);
      length := |Dec(length)| + |body|;
    }
    record := Dec(length) + body;
  }

  // ---- what the parsers return ----

  /** The accepted records of one extended header: at most one value for each known key. */
  datatype PaxRecords = PaxRecords(mtime: Option<bytes>, path: Option<bytes>)

  const NO_RECORDS := PaxRecords(None, None)

  function Added(records: PaxRecords, key: bytes, value: bytes): Option<PaxRecords> {
    if key == MTIME_KEY && records.mtime.None? then Some(records.(mtime := Some(value)))
    else if key == PATH_KEY && records.path.None? then Some(records.(path := Some(value)))
    else None
  }

  // ---- the parser of the canonicalizer ----

  function DigitsEnd(s: bytes, from: nat): (end: nat)
    requires from <= |s|
    ensures from <= end <= |s|
    ensures forall i :: from <= i < end ==> 0x30 <= s[i] <= 0x39
    ensures end < |s| ==> !(0x30 <= s[end] <= 0x39)
    decreases |s| - from
  {
    if from == |s| || !(0x30 <= s[from] <= 0x39) then from
    else DigitsEnd(s, from + 1)
  }

  /** The end of the longest run without an equals sign or newline. */
  function KeyEnd(s: bytes, from: nat): (end: nat)
    requires from <= |s|
    ensures from <= end <= |s|
    ensures forall i :: from <= i < end ==> s[i] != EQUALS && s[i] != NEWLINE
    ensures end < |s| ==> s[end] == EQUALS || s[end] == NEWLINE
    decreases |s| - from
  {
    if from == |s| || s[from] == EQUALS || s[from] == NEWLINE then from else KeyEnd(s, from + 1)
  }

  /** One match of `(0|[1-9][0-9]*) ([^=\n]+)=([^\n]*)\n` at the head of `rest`. */
  function MatchRecord(rest: bytes): (r: Option<(bytes, bytes, bytes)>)
    ensures r.Some? ==> AllDigits(r.value.0) && MatchEnd(r.value) <= |rest|
  {
    var d := DigitsEnd(rest, 0);
    if !CanonicalDec(rest[..d]) || d == |rest| || rest[d] != SPACE then None
    else
      var k := KeyEnd(rest, d + 1);
      if k == d + 1 || k == |rest| || rest[k] != EQUALS then None
      else
        var n := Find(rest, NEWLINE, k + 1);
        if n == |rest| then None else Some((rest[..d], rest[d + 1..k], rest[k + 1..n]))
  }

  /** The extent of a match: length field, space, key, equals sign, value, newline. */
  function MatchEnd(m: (bytes, bytes, bytes)): nat {
    |m.0| + |m.1| + |m.2| + 3
  }

  lemma MatchIsText(rest: bytes)
    requires MatchRecord(rest).Some?
    ensures var m := MatchRecord(rest).value;
      && MatchEnd(m) <= |rest| && CanonicalDec(m.0) && m.1 != [] && EQUALS !in m.1
      && NEWLINE !in m.1 && NEWLINE !in m.2
      && rest[..MatchEnd(m)] == m.0 + ([SPACE] + m.1 + [EQUALS] + m.2 + [NEWLINE])
  {
    hide Find, DigitsEnd, KeyEnd, CanonicalDec;
    var d := DigitsEnd(rest, 0);
    var k := KeyEnd(rest, d + 1);
    var n := Find(rest, NEWLINE, k + 1);
    FiveParts(rest, d, k, n);
  }

  lemma FiveParts(rest: bytes, d: nat, k: nat, n: nat)
    requires d < k < n < |rest|
    ensures rest[..n + 1] == rest[..d] + ([rest[d]] + rest[d + 1..k] + [rest[k]] + rest[k + 1..n] + [rest[n]])
  {
  }

  /** What the loop of `_parse_pax_payload` does with the records still unread. */
  function ParseStrict(rest: bytes, records: PaxRecords): Option<PaxRecords>
    decreases |rest|
  {
    if rest == [] then Some(records)
    else
      var m := MatchRecord(rest);
      if m.None? then None
      else
        var length := DecValue(m.value.0);
        if length != MatchEnd(m.value) then None
        else if !Ascii(m.value.1) || !ValidUtf8(m.value.2) then None
        else
          var added := Added(records, m.value.1, m.value.2);
          if added.None? then None else ParseStrict(rest[length..], added.value)
  }

  /** `_parse_pax_payload` */
  method ParsePaxPayload(payload: bytes) returns (r: Result<PaxRecords>)
    ensures r.Ok? <==> ParseStrict(payload, NO_RECORDS).Some?
    ensures r.Ok? ==> ParseStrict(payload, NO_RECORDS) == Some(r.value)
  {
    hide MatchRecord, CutRecord, DecValue, ValidUtf8;
    var records := NO_RECORDS;
    var offset := 0;
    while offset < |payload|
      invariant offset <= |payload|
      invariant ParseStrict(payload[offset..], records) == ParseStrict(payload, NO_RECORDS)
    {
      var m := MatchRecord(payload[offset..]);
      if m.None? {
        return Err("PAX payload is malformed");
      }
      var (encodedLength, key, value) := m.value;
      var length := DecValue(encodedLength);
      if length != MatchEnd(m.value) {
        return Err("PAX record length is noncanonical");
      }
      if !Ascii(key) || !ValidUtf8(value) {
        return Err("PAX text is invalid");
      }
      var added := Added(records, key, value);
      if added.None? {
        return Err("PAX keys are unsupported or duplicated");
      }
      records := added.value;
      assert payload[offset..][length..] == payload[offset + length..];
      offset := offset + length;
    }
    return Ok(records);
  }

  // ---- the parser of the verifier ----

  /** The head record as the verifier cuts it out: its length, key and value. */
  function CutRecord(rest: bytes): (r: Option<(nat, bytes, bytes)>)
    ensures r.Some? ==> 1 <= r.value.0 <= |rest|
  {
    var separator := Find(rest, SPACE, 0);
    var field := rest[..separator];
    if separator == |rest| || field == [] || !AllDigits(field) || field[0] == 0x30 then None
    else
      DecPositive(field);
      var length := DecValue(field);
      if length > |rest| || rest[length - 1] != NEWLINE then None
      else
        assert length - 1 > separator by {
          assert forall i :: 0 <= i < separator ==> rest[i] == field[i];
        }
        var record := rest[separator + 1..length - 1];
        var assignment := Find(record, EQUALS, 0);
        if assignment == 0 || assignment == |record| then None
        else Some((length, record[..assignment], record[assignment + 1..]))
  }

  function ParseLax(rest: bytes, records: PaxRecords): Option<PaxRecords>
    decreases |rest|
  {
    if rest == [] then Some(records)
    else
      var c := CutRecord(rest);
      if c.None? then None
      else if !Ascii(c.value.1) || !ValidUtf8(c.value.2) then None
      else
        var added := Added(records, c.value.1, c.value.2);
        if added.None? then None else ParseLax(rest[c.value.0..], added.value)
  }

  /** `_parse_pax_records` */
  method ParsePaxRecords(payload: bytes) returns (r: Result<PaxRecords>)
    ensures r.Ok? <==> ParseLax(payload, NO_RECORDS).Some?
    ensures r.Ok? ==> ParseLax(payload, NO_RECORDS) == Some(r.value)
  {
    hide MatchRecord, CutRecord, DecValue, ValidUtf8;
    var records := NO_RECORDS;
    var offset := 0;
    while offset < |payload|
      invariant offset <= |payload|
      invariant ParseLax(payload[offset..], records) == ParseLax(payload, NO_RECORDS)
    {
      var c := CutRecord(payload[offset..]);
      if c.None? {
        return Err("PAX record is malformed");
      }
      var (length, key, value) := c.value;
      if !Ascii(key) || !ValidUtf8(value) {
        return Err("PAX record text is invalid");
      }
      var added := Added(records, key, value);
      if added.None? {
        return Err("PAX record key is unsupported or duplicated");
      }
      records := added.value;
      assert payload[offset..][length..] == payload[offset + length..];
      offset := offset + length;
    }
    return Ok(records);
  }

  // ---- reading a path record back ----

  /** `payload` is one path record for `path`, under some length that fits. */
  ghost predicate PathPayload(payload: bytes, path: bytes) {
    && FixedPoint(|payload|, RecordBody(PATH_KEY, path)) && ValidUtf8(path)
    && payload == Record(|payload|, PATH_KEY, path)
  }

  lemma {:induction false} StrictOnlyAdds(rest: bytes, records: PaxRecords)
    requires ParseStrict(rest, records).Some?
    ensures var out := ParseStrict(rest, records).value;
      && (records.path.Some? ==> out.path == records.path)
      && (records.mtime.Some? ==> out.mtime == records.mtime)
      && (out == records ==> rest == [])
    decreases |rest|
  {
    if rest != [] {
      var m := MatchRecord(rest).value;
      StrictOnlyAdds(rest[DecValue(m.0)..], Added(records, m.1, m.2).value);
    }
  }

  lemma {:induction false} LaxOnlyAdds(rest: bytes, records: PaxRecords)
    requires ParseLax(rest, records).Some?
    ensures var out := ParseLax(rest, records).value;
      && (records.path.Some? ==> out.path == records.path)
      && (records.mtime.Some? ==> out.mtime == records.mtime)
      && (out == records ==> rest == [])
    decreases |rest|
  {
    if rest != [] {
      var c := CutRecord(rest).value;
      LaxOnlyAdds(rest[c.0..], Added(records, c.1, c.2).value);
    }
  }

  lemma RecordParts(length: nat, path: bytes)
    ensures var s := Record(length, PATH_KEY, path); var d := |Dec(length)|;
      && |s| == d + |path| + 7 && s[..d] == Dec(length) && AllDigits(s[..d]) && s[d] == SPACE
      && s[d + 1..d + 5] == PATH_KEY && s[d + 5] == EQUALS && s[d + 6..d + 6 + |path|] == path
      && s[d + 6 + |path|] == NEWLINE
  {
    hide Dec, DecValue;
    DecRoundTrip(length);
    var digits := Dec(length);
    var s, d := Record(length, PATH_KEY, path), |digits|;
    var head: bytes := digits + [SPACE] + PATH_KEY + [EQUALS];
    assert s == head + path + [NEWLINE];
    assert s[..d + 6] == head;
    assert s[d + 1..d + 5] == head[d + 1..d + 5] == PATH_KEY;
    assert s[..d] == head[..d] == digits;
  }

  /** The strict pattern reads a path record back, when the path has no newline. */
  lemma StrictMatchesPath(length: nat, path: bytes)
    requires NEWLINE !in path
    ensures MatchRecord(Record(length, PATH_KEY, path)) == Some((Dec(length), PATH_KEY, path))
  {
    hide Dec, DecValue, Record;
    var s, d := Record(length, PATH_KEY, path), |Dec(length)|;
    RecordParts(length, path);
    DecRoundTrip(length);
    assert forall i :: 0 <= i < d ==> s[i] == s[..d][i];
    assert DigitsEnd(s, 0) == d;
    assert forall i :: d + 1 <= i < d + 5 ==> s[i] == s[d + 1..d + 5][i - (d + 1)];
    assert KeyEnd(s, d + 1) == d + 5;
    assert forall i :: d + 6 <= i < d + 6 + |path| ==> s[i] == s[d + 6..d + 6 + |path|][i - (d + 6)];
    assert Find(s, NEWLINE, d + 6) == d + 6 + |path|;
  }

  lemma LaxCutsPath(length: nat, path: bytes)
    requires FixedPoint(length, RecordBody(PATH_KEY, path))
    ensures CutRecord(Record(length, PATH_KEY, path)) == Some((length, PATH_KEY, path))
  {
    hide Dec, DecValue, Record;
    var s, d := Record(length, PATH_KEY, path), |Dec(length)|;
    RecordParts(length, path);
    DecRoundTrip(length);
    assert forall i :: 0 <= i < d ==> s[i] == s[..d][i];
    assert Find(s, SPACE, 0) == d;
    assert s[..d][0] != 0x30;
    var record := s[d + 1..length - 1];
    assert record == s[d + 1..d + 5] + [s[d + 5]] + s[d + 6..d + 6 + |path|];
    FindIn(PATH_KEY, EQUALS, path);
    assert record[..4] == PATH_KEY && record[5..] == path;
  }

  /** The canonicalizer's parser returns a lone path exactly for the records that spell it. */
  lemma StrictReadsPath(payload: bytes, path: bytes)
    ensures ParseStrict(payload, NO_RECORDS) == Some(PaxRecords(None, Some(path)))
      <==> PathPayload(payload, path) && NEWLINE !in path
  {
    hide MatchRecord, Dec, DecValue, ValidUtf8;
    if PathPayload(payload, path) && NEWLINE !in path {
      StrictMatchesPath(|payload|, path);
      DecRoundTrip(|payload|);
      assert payload[|payload|..] == [];
    }
    if ParseStrict(payload, NO_RECORDS) == Some(PaxRecords(None, Some(path))) {
      var m := MatchRecord(payload).value;
      var length := DecValue(m.0);
      MatchIsText(payload);
      DecSpelling(m.0);
      StrictOnlyAdds(payload[length..], Added(NO_RECORDS, m.1, m.2).value);
      assert payload[..length] == payload;
    }
  }

  /** The verifier's parser does too, and also takes a path with newlines. */
  lemma LaxReadsPath(payload: bytes, path: bytes)
    ensures ParseLax(payload, NO_RECORDS) == Some(PaxRecords(None, Some(path))) <==> PathPayload(payload, path)
  {
    hide CutRecord, Dec, DecValue, ValidUtf8;
    if PathPayload(payload, path) {
      LaxCutsPath(|payload|, path);
      assert payload[|payload|..] == [];
    }
    if ParseLax(payload, NO_RECORDS) == Some(PaxRecords(None, Some(path))) {
      var (length, key, value) := CutRecord(payload).value;
      LaxOnlyAdds(payload[length..], Added(NO_RECORDS, key, value).value);
      CutIsText(payload);
      assert payload[..length] == payload;
    }
  }

  lemma CutIsText(rest: bytes)
    requires CutRecord(rest).Some?
    ensures var (length, key, value) := CutRecord(rest).value;
      rest[..length] == Record(length, key, value)
  {
    hide Dec, DecValue;
    var (length, key, value) := CutRecord(rest).value;
    var separator := Find(rest, SPACE, 0);
    DecSpelling(rest[..separator]);
    var record := rest[separator + 1..length - 1];
    var assignment := Find(record, EQUALS, 0);
    assert record == key + [EQUALS] + value;
    assert rest[..length] == rest[..separator] + ([rest[separator]] + record + [rest[length - 1]]);
    assert [SPACE] + record + [NEWLINE] == [SPACE] + key + [EQUALS] + value + [NEWLINE];
  }
}
