/** The tars of build tools that the canonicalizer reads, spelled out: headers, extended headers,
    members, and the archive they make up. */
module SourceGrammar {
  import opened Outcomes
  import opened Bytes
  import opened Text
  import opened Pax
  import opened TarHeader
  import opened Tar
  import opened TarSource
  import opened ReleaseContract

  // ---- one header ----

  function ToolFront(field: bytes, h: SourceHeader, uid: nat, gid: nat): (front: bytes)
    requires |field| == NAME_WIDTH
    ensures |front| == 148
  {
    field + TarOctal(h.mode, 8) + TarOctal(uid, 8) + TarOctal(gid, 8) + TarOctal(h.size, 12) + TarOctal(h.modified, 12)
  }

  function ToolBack(h: SourceHeader): (back: bytes)
    requires |h.uname| <= 31 && |h.gname| <= 31
    ensures |back| == 356
  {
    [h.memberType] + Zeros(100) + USTAR + VERSION + Padded(h.uname, 32) + Padded(h.gname, 32) + Zeros(183)
  }

  predicate NumbersFit(h: SourceHeader, uid: nat, gid: nat) {
    h.mode < MODE_LIMIT && uid < MODE_LIMIT && gid < MODE_LIMIT && h.size < SIZE_LIMIT && h.modified < SIZE_LIMIT
  }

  predicate OwnersFit(h: SourceHeader) {
    |h.uname| <= 31 && |h.gname| <= 31 && 0 !in h.uname && 0 !in h.gname
  }

  /** The header spells these fields around a name field, with their checksum. */
  ghost predicate Spells(header: bytes, field: bytes, h: SourceHeader, uid: nat, gid: nat) {
    && |field| == NAME_WIDTH && NumbersFit(h, uid, gid) && OwnersFit(h)
    && var front, back := ToolFront(field, h, uid, gid), ToolBack(h);
       header == front + ChecksumField(Sum(front) + 8 * 0x20 + Sum(back)) + back
  }

  /** The header of an extended header: that name, and nothing else but a size. */
  ghost predicate Extension(field: bytes, h: SourceHeader, uid: nat, gid: nat) {
    PAX_NAME + [0] <= field && h.mode == 0 && uid == 0 && gid == 0 && h.modified == 0 && h.uname == [] && h.gname == []
  }

  /** A build tool's header with these fields, for a path given in an extended header or none. */
  ghost predicate ToolHeader(header: bytes, paxPath: Option<bytes>, h: SourceHeader)
    requires |header| == BLOCK && (paxPath.Some? ==> ValidUtf8(paxPath.value))
  {
    && HeaderName(header[..100], paxPath) == Some(h.name) && h.memberType in {XHDTYPE, REGTYPE, DIRTYPE}
    && exists uid: nat, gid: nat :: Spells(header, header[..100], h, uid, gid) && (h.memberType == XHDTYPE ==> Extension(header[..100], h, uid, gid))
  }

  lemma FrontSlices(front: bytes, h: SourceHeader, uid: nat, gid: nat)
    requires |front| == 148
    ensures front == ToolFront(front[..100], h, uid, gid) <==>
      && front[100..108] == TarOctal(h.mode, 8) && front[108..116] == TarOctal(uid, 8) && front[116..124] == TarOctal(gid, 8)
      && front[124..136] == TarOctal(h.size, 12) && front[136..148] == TarOctal(h.modified, 12)
  {
    hide TarOctal;
    assert front == front[..100] + front[100..108] + front[108..116] + front[116..124] + front[124..136] + front[136..148];
    var f := ToolFront(front[..100], h, uid, gid);
    assert f[100..108] == TarOctal(h.mode, 8) && f[108..116] == TarOctal(uid, 8) && f[116..124] == TarOctal(gid, 8);
    assert f[124..136] == TarOctal(h.size, 12) && f[136..148] == TarOctal(h.modified, 12);
  }

  lemma BackSlices(back: bytes, h: SourceHeader)
    requires |back| == 356 && |h.uname| <= 31 && |h.gname| <= 31
    ensures back == ToolBack(h) <==>
      && back[0] == h.memberType && AllZero(back[1..101]) && back[101..107] == USTAR && back[107..109] == VERSION
      && back[109..141] == Padded(h.uname, 32) && back[141..173] == Padded(h.gname, 32) && AllZero(back[173..356])
  {
    hide Padded;
    var b := ToolBack(h);
    assert back == [back[0]] + back[1..101] + back[101..107] + back[107..109] + back[109..141] + back[141..173] + back[173..356];
    assert b[0] == h.memberType && b[1..101] == Zeros(100) && b[101..107] == USTAR && b[107..109] == VERSION;
    assert b[109..141] == Padded(h.uname, 32) && b[141..173] == Padded(h.gname, 32) && b[173..356] == Zeros(183);
    AllZeroIsZeros(back[1..101]);
    AllZeroIsZeros(back[173..356]);
  }

  lemma OwnerField(field: bytes, name: bytes)
    requires |field| == 32
    ensures NulPadded(field, true) == Some(name) <==> |name| <= 31 && 0 !in name && field == Padded(name, 32)
  {
    var at := Find(field, 0, 0);
    if NulPadded(field, true) == Some(name) {
      AllZeroIsZeros(field[at..]);
      assert field == field[..at] + field[at..];
    }
    if |name| <= 31 && 0 !in name && field == Padded(name, 32) {
      assert forall i :: 0 <= i < |name| ==> field[i] == name[i];
      assert field[|name|] == 0;
      assert field[..at] == name && AllZero(field[at..]);
    }
  }

  /** The numbers of a front, field by field. */
  lemma NumbersRead(header: bytes, h: SourceHeader, uid: nat, gid: nat)
    requires |header| == BLOCK
    ensures NumbersFit(h, uid, gid) && header[..148] == ToolFront(header[..100], h, uid, gid) <==>
      && CanonicalOctal(header[100..108]) == Some(h.mode)
      && CanonicalOctal(header[108..116]) == Some(uid) && CanonicalOctal(header[116..124]) == Some(gid)
      && CanonicalOctal(header[124..136]) == Some(h.size) && CanonicalOctal(header[136..148]) == Some(h.modified)
  {
    hide ToolFront, CanonicalOctal, TarOctal;
    Limits();
    FrontSlices(header[..148], h, uid, gid);
    CanonicalOctalExact(header[100..108], h.mode);
    CanonicalOctalExact(header[108..116], uid);
    CanonicalOctalExact(header[116..124], gid);
    CanonicalOctalExact(header[124..136], h.size);
    CanonicalOctalExact(header[136..148], h.modified);
    assert header[..148][..100] == header[..100] && header[..148][100..108] == header[100..108];
    assert header[..148][108..116] == header[108..116] && header[..148][116..124] == header[116..124];
    assert header[..148][124..136] == header[124..136] && header[..148][136..148] == header[136..148];
  }

  lemma ChecksumRead(header: bytes)
    requires |header| == BLOCK
    ensures AllOctal(header[148..154]) && header[154] == 0 && header[155] == SPACE
              && OctalValue(header[148..154]) == ChecksumOf(header[..148], header[156..])
      <==> header[148..156] == ChecksumField(ChecksumOf(header[..148], header[156..]))
  {
    hide Sum, Octal, OctalValue, ChecksumOf;
    var digits, field, checksum := header[148..154], header[148..156], ChecksumOf(header[..148], header[156..]);
    assert field == digits + [header[154], header[155]];
    ChecksumFits(header[..148], header[156..]);
    Limits();
    if AllOctal(digits) && header[154] == 0 && header[155] == SPACE && OctalValue(digits) == checksum { OctalSpelling(digits); }
    if field == ChecksumField(checksum) {
      OctalRoundTrip(checksum, 6);
      assert field[..6] == digits && ChecksumField(checksum)[..6] == Octal(checksum, 6);
    }
  }

  lemma Rest(header: bytes)
    requires |header| == BLOCK
    ensures header[156..][173..356] == header[329..345] + header[345..512]
  {
    var all := header[329..512];
    assert header[156..][173..356] == all;
    assert all[..16] == header[329..345] && all[16..] == header[345..512];
    assert all == all[..16] + all[16..];
  }

  /** The frame and the owners, field by field. */
  lemma FrameRead(header: bytes, h: SourceHeader)
    requires |header| == BLOCK
    ensures OwnersFit(h) && header[156..] == ToolBack(h) && header[148..156] == ChecksumField(ChecksumOf(header[..148], header[156..])) <==>
      && FrameOk(header) && AllZero(header[329..345]) && AllZero(header[345..512]) && header[156] == h.memberType
      && NulPadded(header[265..297], true) == Some(h.uname) && NulPadded(header[297..329], true) == Some(h.gname)
  {
    hide ToolBack, NulPadded, ChecksumOf, ChecksumField, OctalValue, AllOctal, Padded, AllZero;
    var back := header[156..];
    ChecksumRead(header);
    OwnerField(header[265..297], h.uname);
    OwnerField(header[297..329], h.gname);
    if |h.uname| <= 31 && |h.gname| <= 31 { BackSlices(back, h); }
    assert back[1..101] == header[157..257] && back[101..107] == header[257..263] && back[107..109] == header[263..265];
    assert back[109..141] == header[265..297] && back[141..173] == header[297..329];
    Rest(header);
    AllZeroConcat(header[329..345], header[345..512]);
  }

  lemma ExtensionRead(header: bytes, h: SourceHeader, uid: nat, gid: nat)
    requires |header| == BLOCK
    requires NulPadded(header[265..297], true) == Some(h.uname) && NulPadded(header[297..329], true) == Some(h.gname)
    ensures Extension(header[..100], h, uid, gid) <==>
      && header[..Find(header[..100], 0, 0)] == PAX_NAME && h.mode == 0 && uid == 0 && gid == 0 && h.modified == 0 && AllZero(header[265..329])
  {
    var field := header[..100];
    var at := Find(field, 0, 0);
    assert header[..at] == field[..at];
    PaxName();
    if PAX_NAME + [0] <= field {
      var lead := PAX_NAME + [0];
      assert forall i :: 0 <= i < 15 ==> field[i] == lead[i];
      assert forall i :: 0 <= i < 14 ==> lead[i] == PAX_NAME[i] && PAX_NAME[i] in PAX_NAME;
      assert field[14] == 0;
      assert field[..14] == lead[..14] == PAX_NAME;
    }
    if header[..at] == PAX_NAME {
      assert at == 14 && field[14] == 0;
      assert field[..15] == PAX_NAME + [0];
    }
    assert header[265..329] == header[265..297] + header[297..329];
    AllZeroConcat(header[265..297], header[297..329]);
    NoOwner(header[265..297]);
    NoOwner(header[297..329]);
  }

  lemma PaxName()
    ensures |PAX_NAME| == 14 && 0 !in PAX_NAME
  {
  }

  lemma NoOwner(field: bytes)
    requires |field| == 32
    ensures AllZero(field) <==> NulPadded(field, true) == Some([])
  {
    if NulPadded(field, true) == Some([]) { assert field[0..] == field; }
    if AllZero(field) { assert Find(field, 0, 0) == 0 && field[0..] == field && field[..0] == []; }
  }

  /** A build tool's header is accepted exactly when it spells its fields. */
  lemma ToolHeaderExactly(header: bytes, paxPath: Option<bytes>, h: SourceHeader)
    requires |header| == BLOCK && (paxPath.Some? ==> ValidUtf8(paxPath.value))
    ensures CheckSourceHeader(header, paxPath) == Ok(h) <==> ToolHeader(header, paxPath, h)
  {
    hide HeaderName, Spells, Extension, FrameOk, NulPadded, CanonicalOctal, AllZero, Find, PAX_NAME;
    if CheckSourceHeader(header, paxPath) == Ok(h) {
      var uid, gid := CanonicalOctal(header[108..116]).value, CanonicalOctal(header[116..124]).value;
      SpellsExactly(header, h, uid, gid);
      ExtensionRead(header, h, uid, gid);
    }
    if ToolHeader(header, paxPath, h) {
      var uid: nat, gid: nat :| Spells(header, header[..100], h, uid, gid) && (h.memberType == XHDTYPE ==> Extension(header[..100], h, uid, gid));
      SpellsExactly(header, h, uid, gid);
      ExtensionRead(header, h, uid, gid);
    }
  }

  lemma SpellsExactly(header: bytes, h: SourceHeader, uid: nat, gid: nat)
    requires |header| == BLOCK
    ensures Spells(header, header[..100], h, uid, gid) <==>
      && CanonicalOctal(header[100..108]) == Some(h.mode)
      && CanonicalOctal(header[108..116]) == Some(uid) && CanonicalOctal(header[116..124]) == Some(gid)
      && CanonicalOctal(header[124..136]) == Some(h.size) && CanonicalOctal(header[136..148]) == Some(h.modified)
      && FrameOk(header) && AllZero(header[329..345]) && AllZero(header[345..512]) && header[156] == h.memberType
      && NulPadded(header[265..297], true) == Some(h.uname) && NulPadded(header[297..329], true) == Some(h.gname)
  {
    hide FrameOk, NulPadded, CanonicalOctal, AllZero, ToolFront, ToolBack, ChecksumField, Sum;
    NumbersRead(header, h, uid, gid);
    FrameRead(header, h);
    assert header == header[..148] + header[148..156] + header[156..];
    if |h.uname| <= 31 && |h.gname| <= 31 {
      var front, back := ToolFront(header[..100], h, uid, gid), ToolBack(h);
      var whole := front + ChecksumField(ChecksumOf(front, back)) + back;
      assert whole[..148] == front && whole[148..156] == ChecksumField(ChecksumOf(front, back)) && whole[156..] == back;
    }
  }

  // ---- extended headers ----

  /** The payload is these records, one after another, each announcing its own length. */
  ghost predicate Listing(payload: bytes, pairs: seq<(bytes, bytes)>)
    decreases |pairs|
  {
    if pairs == [] then payload == []
    else
      exists length: nat, tail ::
        && payload == Record(length, pairs[0].0, pairs[0].1) + tail && |payload| == length + |tail|
        && NEWLINE !in pairs[0].1 && ValidUtf8(pairs[0].1) && Listing(tail, pairs[1..])
  }

  /** The records add a time and a path, each once, to those there were. */
  ghost predicate Extends(before: PaxRecords, pairs: seq<(bytes, bytes)>, after: PaxRecords)
    decreases |pairs|
  {
    if pairs == [] then after == before
    else
      var (key, value) := pairs[0];
      || (key == [0x6d, 0x74, 0x69, 0x6d, 0x65] && before.mtime == None && Extends(PaxRecords(Some(value), before.path), pairs[1..], after))
      || (key == [0x70, 0x61, 0x74, 0x68] && before.path == None && Extends(PaxRecords(before.mtime, Some(value)), pairs[1..], after))
  }

  lemma RecordSlices(length: nat, key: bytes, value: bytes, tail: bytes)
    ensures var s := Record(length, key, value) + tail; var d, k := |Dec(length)|, |Dec(length)| + 1 + |key|; var n := k + 1 + |value|;
      && |s| > n && s[..d] == Dec(length) && s[d] == SPACE && s[d + 1..k] == key && s[k] == EQUALS && s[k + 1..n] == value && s[n] == NEWLINE
  {
    hide Dec;
    var digits := Dec(length);
    var s := Record(length, key, value) + tail;
    assert s == digits + ([SPACE] + (key + ([EQUALS] + (value + ([NEWLINE] + tail)))));
  }

  lemma DigitsEndAt(s: bytes, d: nat)
    requires d < |s| && AllDigits(s[..d]) && !(0x30 <= s[d] <= 0x39)
    ensures DigitsEnd(s, 0) == d
  {
    hide DigitsEnd;
    assert forall i :: 0 <= i < d ==> s[i] == s[..d][i];
  }

  lemma KeyEndAt(s: bytes, from: nat, k: nat)
    requires from <= k < |s| && EQUALS !in s[from..k] && NEWLINE !in s[from..k] && s[k] == EQUALS
    ensures KeyEnd(s, from) == k
  {
    hide KeyEnd;
    assert forall i :: from <= i < k ==> s[i] == s[from..k][i - from] && s[from..k][i - from] in s[from..k];
  }

  lemma FindAt(s: bytes, b: byte, from: nat, n: nat)
    requires from <= n < |s| && b !in s[from..n] && s[n] == b
    ensures Find(s, b, from) == n
  {
    hide Find;
    assert forall i :: from <= i < n ==> s[i] == s[from..n][i - from] && s[from..n][i - from] in s[from..n];
  }

  lemma MatchesRecord(length: nat, key: bytes, value: bytes, tail: bytes)
    requires key != [] && EQUALS !in key && NEWLINE !in key && NEWLINE !in value
    ensures MatchRecord(Record(length, key, value) + tail) == Some((Dec(length), key, value))
  {
    hide Dec, DecValue, Record, DigitsEnd, KeyEnd, Find;
    DecRoundTrip(length);
    var s, d, k := Record(length, key, value) + tail, |Dec(length)|, |Dec(length)| + 1 + |key|;
    var n := k + 1 + |value|;
    RecordSlices(length, key, value, tail);
    DigitsEndAt(s, d);
    KeyEndAt(s, d + 1, k);
    FindAt(s, NEWLINE, k + 1, n);
  }

  lemma Keys()
    ensures MTIME_KEY == [0x6d, 0x74, 0x69, 0x6d, 0x65] && PATH_KEY == [0x70, 0x61, 0x74, 0x68]
    ensures forall key :: key == MTIME_KEY || key == PATH_KEY ==> key != [] && EQUALS !in key && NEWLINE !in key && Ascii(key)
    ensures MTIME_KEY != PATH_KEY
  {
  }

  lemma {:induction false} StrictRead(rest: bytes, before: PaxRecords) returns (pairs: seq<(bytes, bytes)>)
    requires ParseStrict(rest, before).Some?
    ensures Listing(rest, pairs) && Extends(before, pairs, ParseStrict(rest, before).value)
    decreases |rest|
  {
    hide MatchRecord, DecValue, ValidUtf8, Dec;
    if rest == [] {
      pairs := [];
    } else {
      Keys();
      var m := MatchRecord(rest).value;
      var length := DecValue(m.0);
      MatchIsText(rest);
      DecSpelling(m.0);
      var more := StrictRead(rest[length..], Added(before, m.1, m.2).value);
      pairs := [(m.1, m.2)] + more;
      assert pairs[1..] == more;
      assert rest == Record(length, m.1, m.2) + rest[length..];
      ListingStarts(length, m.1, m.2, rest[length..], more);
    }
  }

  lemma ListingStarts(length: nat, key: bytes, value: bytes, tail: bytes, more: seq<(bytes, bytes)>)
    requires |Record(length, key, value)| == length && NEWLINE !in value && ValidUtf8(value) && Listing(tail, more)
    ensures Listing(Record(length, key, value) + tail, [(key, value)] + more)
  {
    hide Record, ValidUtf8;
    var pairs := [(key, value)] + more;
    assert pairs[1..] == more && pairs[0] == (key, value);
    var payload := Record(length, key, value) + tail;
    assert |payload| == length + |tail|;
  }

  lemma {:induction false} StrictReads(rest: bytes, pairs: seq<(bytes, bytes)>, before: PaxRecords, after: PaxRecords)
    requires Listing(rest, pairs) && Extends(before, pairs, after)
    ensures ParseStrict(rest, before) == Some(after)
    decreases |pairs|
  {
    hide MatchRecord, DecValue, ValidUtf8, Dec, Record, Ascii;
    if pairs != [] {
      Keys();
      var (key, value) := pairs[0];
      var length: nat, tail :| rest == Record(length, key, value) + tail && |rest| == length + |tail|
        && NEWLINE !in value && ValidUtf8(value) && Listing(tail, pairs[1..]);
      MatchesRecord(length, key, value, tail);
      RecordSize(length, key, value);
      DecRoundTrip(length);
      assert rest[length..] == tail;
      StrictReads(tail, pairs[1..], Added(before, key, value).value, after);
    }
  }

  lemma RecordSize(length: nat, key: bytes, value: bytes)
    ensures |Record(length, key, value)| == |Dec(length)| + |key| + |value| + 3
  {
    hide Dec;
  }

  /** An extended header is read exactly when its payload is a listing of a time and a path. */
  lemma StrictExactly(payload: bytes, records: PaxRecords)
    ensures ParseStrict(payload, NO_RECORDS) == Some(records) <==>
      exists pairs :: Listing(payload, pairs) && Extends(PaxRecords(None, None), pairs, records)
  {
    hide ParseStrict, Listing, Extends;
    if ParseStrict(payload, NO_RECORDS) == Some(records) { var pairs := StrictRead(payload, NO_RECORDS); }
    if pairs :| Listing(payload, pairs) && Extends(PaxRecords(None, None), pairs, records) {
      StrictReads(payload, pairs, NO_RECORDS, records);
    }
  }

  // ---- times ----

  /** A decimal with at most 32 characters and no needless zeros. */
  ghost predicate TimeText(text: bytes, whole: nat, fraction: bytes) {
    && |text| <= 32 && text == Dec(whole) + (if fraction == [] then [] else [0x2e] + fraction)
    && AllDigits(fraction) && (fraction != [] && fraction != [0x30] ==> fraction[|fraction| - 1] != 0x30)
  }

  /** `n` is the nearest integer to whole.fraction, the even one of two. */
  predicate Nearest(n: nat, whole: nat, part: nat, unit: nat) {
    var twice := 2 * (whole * unit + part) - 2 * (n * unit);
    twice <= unit && -twice <= unit && (twice == unit || -twice == unit ==> n % 2 == 0)
  }

  lemma TimeRead(text: bytes) returns (whole: nat, fraction: bytes)
    requires MtimeSpelled(text)
    ensures TimeText(text, whole, fraction)
    ensures var dot := Find(text, DOT, 0);
      whole == DecValue(text[..dot]) && (dot == |text| <==> fraction == []) && (dot < |text| ==> fraction == text[dot + 1..])
  {
    hide Dec, DecValue;
    var dot := Find(text, DOT, 0);
    whole := DecValue(text[..dot]);
    fraction := if dot == |text| then [] else text[dot + 1..];
    DecSpelling(text[..dot]);
    assert dot < |text| ==> text == text[..dot] + ([text[dot]] + text[dot + 1..]);
  }

  lemma TimeReads(text: bytes, whole: nat, fraction: bytes)
    requires TimeText(text, whole, fraction)
    ensures MtimeSpelled(text)
    ensures var dot := Find(text, DOT, 0);
      whole == DecValue(text[..dot]) && (dot == |text| <==> fraction == []) && (dot < |text| ==> fraction == text[dot + 1..])
  {
    hide Dec, DecValue;
    DecRoundTrip(whole);
    var digits := Dec(whole);
    assert forall i :: 0 <= i < |digits| ==> text[i] == digits[i] && digits[i] != DOT;
    if fraction == [] { assert text == digits; } else { assert text[|digits|] == DOT; }
    assert Find(text, DOT, 0) == |digits|;
    assert text[..|digits|] == digits;
    assert fraction != [] ==> text[|digits| + 1..] == fraction;
  }

  lemma {:induction false} ValueBelow(s: bytes)
    requires AllDigits(s)
    ensures DecValue(s) < Pow(10, |s|)
  {
    if s != [] { ValueBelow(s[..|s| - 1]); }
  }

  /** A fraction is below, at or above one half as its first digit is, and at it only as `.5`. */
  lemma {:induction false} Halves(s: bytes)
    requires AllDigits(s) && s != []
    ensures s[0] >= 0x35 <==> 2 * DecValue(s) >= Pow(10, |s|)
    ensures 2 * DecValue(s) == Pow(10, |s|) ==> s[0] == 0x35 && forall i :: 1 <= i < |s| ==> s[i] == 0x30
    decreases |s|
  {
    var front, last := s[..|s| - 1], s[|s| - 1];
    var p := Pow(10, |front|);
    assert Pow(10, |s|) == 10 * p;
    assert DecValue(s) == 10 * DecValue(front) + (last as nat - 0x30);
    if front != [] {
      Halves(front);
      PowEven(|front|);
      assert front[0] == s[0];
      assert forall i :: 1 <= i < |front| ==> s[i] == front[i];
    } else {
      assert DecValue(front) == 0 && p == 1;
    }
  }

  lemma PowEven(k: nat)
    requires k >= 1
    ensures Pow(10, k) % 2 == 0
  {
    var p := Pow(10, k - 1);
    assert Pow(10, k) == 2 * (5 * p);
  }

  lemma NearestIs(n: nat, whole: nat, part: nat, unit: nat)
    requires part < unit
    ensures Nearest(n, whole, part, unit) <==>
      n == if 2 * part < unit then whole else if 2 * part > unit then whole + 1 else whole + whole % 2
  {
    assert whole * unit - n * unit == (whole - n) * unit;
    if n > whole + 1 {
      assert (whole - n) * unit <= -2 * unit by { Scale(n - whole, 2, unit); }
    } else if n < whole {
      assert (whole - n) * unit >= unit by { Scale(whole - n, 1, unit); }
    }
  }

  lemma Scale(a: nat, b: nat, unit: nat)
    requires a >= b
    ensures a * unit >= b * unit
  {
  }

  /** The text is a time that rounds to `n`. */
  ghost predicate Rounds(text: bytes, whole: nat, fraction: bytes, n: nat) {
    TimeText(text, whole, fraction) && Nearest(n, whole, DecValue(fraction), Pow(10, |fraction|))
  }

  /** The header's time is the nearest integer to the extended one, halves to even. */
  lemma NearestExactly(text: bytes, n: nat)
    ensures MtimeSpelled(text) && NearestSecond(text) == n <==> exists whole: nat, fraction :: Rounds(text, whole, fraction, n)
  {
    hide TimeText, DecValue, Pow, MtimeSpelled, NearestSecond, Nearest;
    if MtimeSpelled(text) {
      var whole, fraction := TimeRead(text);
      NearestValue(text, whole, fraction, n);
      if NearestSecond(text) == n { assert Rounds(text, whole, fraction, n); }
    }
    forall whole: nat, fraction | Rounds(text, whole, fraction, n) ensures MtimeSpelled(text) && NearestSecond(text) == n {
      TimeReads(text, whole, fraction);
      NearestValue(text, whole, fraction, n);
    }
  }

  lemma NearestValue(text: bytes, whole: nat, fraction: bytes, n: nat)
    requires MtimeSpelled(text) && TimeText(text, whole, fraction)
    requires var dot := Find(text, DOT, 0);
      whole == DecValue(text[..dot]) && (dot == |text| <==> fraction == []) && (dot < |text| ==> fraction == text[dot + 1..])
    ensures NearestSecond(text) == n <==> Rounds(text, whole, fraction, n)
  {
    hide DecValue, Pow, Nearest, Dec;
    ValueBelow(fraction);
    NearestIs(n, whole, DecValue(fraction), Pow(10, |fraction|));
    if fraction == [] {
      assert DecValue([]) == 0 && Pow(10, 0) == 1 by { NoDigits(); }
    } else {
      Halves(fraction);
      if 2 * DecValue(fraction) == Pow(10, |fraction|) {
        assert |fraction| == 1;
        assert fraction == [0x35];
      }
      if fraction == [0x35] { OneHalf(); }
    }
  }

  lemma NoDigits()
    ensures DecValue([]) == 0 && Pow(10, 0) == 1
  {
  }

  lemma OneHalf()
    ensures 2 * DecValue([0x35]) == Pow(10, 1)
  {
    var s: bytes := [0x35];
    assert s[..0] == [] && Pow(10, 1) == 10 * Pow(10, 0);
  }

  // ---- members ----

  /** A header with these fields, its contents padded to whole blocks, and the rest. */
  ghost predicate ToolRecord(rest: bytes, paxPath: Option<bytes>, record: SourceRecord)
    requires paxPath.Some? ==> ValidUtf8(paxPath.value)
  {
    && |rest| >= BLOCK && rest == rest[..BLOCK] + Blocked(record.data) + record.tail
    && record.header.size == |record.data| && ToolHeader(rest[..BLOCK], paxPath, record.header)
  }

  lemma ToolRecordExactly(rest: bytes, paxPath: Option<bytes>, record: SourceRecord)
    requires |rest| >= BLOCK && (paxPath.Some? ==> ValidUtf8(paxPath.value))
    ensures ReadSource(rest, paxPath) == Some(record) <==> ToolRecord(rest, paxPath, record)
  {
    hide CheckSourceHeader, ToolHeader, ValidUtf8;
    ToolHeaderExactly(rest[..BLOCK], paxPath, record.header);
    var size := record.header.size;
    var next := BLOCK + RoundUp(size);
    if ReadSource(rest, paxPath) == Some(record) {
      BlockedExact(rest, size);
      assert rest == rest[..BLOCK] + rest[BLOCK..next] + rest[next..];
    }
    if ToolRecord(rest, paxPath, record) {
      assert rest[BLOCK..next] == Blocked(record.data);
      assert rest[BLOCK..BLOCK + size] == record.data && rest[next..] == record.tail;
      BlockedExact(rest, size);
    }
  }

  lemma ToolHeaderIsNotZero(header: bytes, paxPath: Option<bytes>, h: SourceHeader)
    requires |header| == BLOCK && (paxPath.Some? ==> ValidUtf8(paxPath.value)) && ToolHeader(header, paxPath, h)
    ensures !AllZero(header)
  {
    hide ToolHeader, CheckSourceHeader, ValidUtf8;
    ToolHeaderExactly(header, paxPath, h);
    HasMagic(header, paxPath);
    assert header[257..263][0] == header[257];
  }

  lemma HasMagic(header: bytes, paxPath: Option<bytes>)
    requires |header| == BLOCK && (paxPath.Some? ==> ValidUtf8(paxPath.value)) && CheckSourceHeader(header, paxPath).Ok?
    ensures header[257..263] == USTAR
  {
    hide HeaderName, CanonicalOctal, NulPadded, AllZero, Find, ValidUtf8;
  }

  /** An extended header of at most 65,536 bytes that lists these records. */
  ghost predicate Announces(ext: SourceRecord, records: PaxRecords) {
    && ext.header.memberType == XHDTYPE && |ext.data| <= 65_536
    && exists pairs :: Listing(ext.data, pairs) && Extends(PaxRecords(None, None), pairs, records)
  }

  /** There is a record; a path, but for one slash behind it, is safe; and a time rounds to the header's. */
  ghost predicate PaxFits(records: PaxRecords, modified: nat, policy: NamePolicy) {
    && (records.path != None || records.mtime != None)
    && (records.path.Some? ==>
          exists path :: ValidUtf8(path) && SafeReleaseName(path, policy).Some?
            && (records.path.value == path + [SLASH] || (records.path.value == path && !EndsInSlash(path))))
    && (records.mtime.Some? ==> exists whole: nat, fraction :: Rounds(records.mtime.value, whole, fraction, modified))
  }

  lemma PaxFitsExactly(records: PaxRecords, modified: nat, policy: NamePolicy)
    ensures SourcePaxOk(records, modified, policy) <==> PaxFits(records, modified, policy)
  {
    hide ValidUtf8, SafeReleaseName, MtimeSpelled, NearestSecond, Rounds;
    if records.mtime.Some? { NearestExactly(records.mtime.value, modified); }
    if records.path.Some? {
      var path := WithoutSlash(records.path.value);
      assert records.path.value == path + [SLASH] || (records.path.value == path && !EndsInSlash(path));
      forall other | records.path.value == other + [SLASH] || (records.path.value == other && !EndsInSlash(other)) ensures other == path { }
    }
  }

  /** The member that the archive library reports for a record. */
  predicate Reports(raw: RawMember, h: SourceHeader, data: bytes, path: Option<bytes>) {
    && raw.pax == path.Some? && raw.path == (if path.Some? then path.value else h.name)
    && raw.mode == h.mode && raw.memberType == h.memberType && raw.uname == h.uname && raw.gname == h.gname && raw.data == data
  }

  /** A member's own record, under the records announced for it or none. */
  ghost predicate Member(rest: bytes, pending: Option<PaxRecords>, record: SourceRecord, raw: RawMember, policy: NamePolicy)
    requires PendingText(pending)
  {
    var path := if pending.Some? then pending.value.path else None;
    && ToolRecord(rest, path, record) && record.header.memberType != XHDTYPE && Reports(raw, record.header, record.data, path)
    && (pending.Some? ==> PaxFits(pending.value, record.header.modified, policy))
  }

  /** An archive of these members: each behind at most one extended header, and zero blocks. */
  ghost predicate Archive(rest: bytes, pending: Option<PaxRecords>, raws: seq<RawMember>, policy: NamePolicy)
    requires PendingText(pending)
    decreases |raws|, if pending.None? then 1 else 0
  {
    if raws == [] then pending.None? && EndsArchive(rest)
    else
      || (exists record :: Member(rest, pending, record, raws[0], policy) && Archive(record.tail, None, raws[1..], policy))
      || (pending.None? && exists ext, records ::
            PendingText(Some(records)) && ToolRecord(rest, None, ext) && Announces(ext, records) && Archive(ext.tail, Some(records), raws, policy))
  }

  /** Only the contents of files count against the budget. */
  function FileSize(raw: RawMember): nat {
    if raw.memberType == REGTYPE then |raw.data| else 0
  }

  function FileSizes(raws: seq<RawMember>): nat {
    if raws == [] then 0 else FileSize(raws[0]) + FileSizes(raws[1..])
  }

  ghost predicate Budgeted(raws: seq<RawMember>, count: nat, total: nat) {
    raws != [] ==>
      && count + |raws| <= MAX_ARCHIVE_MEMBERS && total + FileSizes(raws) <= MAX_TOTAL_BYTES
      && forall k :: 0 <= k < |raws| ==> FileSize(raws[k]) <= MAX_MEMBER_BYTES
  }

  lemma BudgetedStep(raws: seq<RawMember>, count: nat, total: nat)
    requires raws != []
    ensures Budgeted(raws, count, total) <==>
      WithinBudget(count + 1, FileSize(raws[0]), total) && Budgeted(raws[1..], count + 1, total + FileSize(raws[0]))
  {
    hide FileSize;
    assert FileSizes(raws) == FileSize(raws[0]) + FileSizes(raws[1..]);
    if |raws| == 1 { assert FileSizes(raws[1..]) == 0; }
    assert forall k :: 1 <= k < |raws| ==> raws[k] == raws[1..][k - 1];
    assert forall k {:trigger raws[1..][k]} :: 0 <= k < |raws| - 1 ==> raws[1..][k] == raws[k + 1];
  }

  lemma ReportsIs(raw: RawMember, record: SourceRecord, pending: Option<PaxRecords>)
    ensures raw == RawOf(record, pending) <==> Reports(raw, record.header, record.data, PendingPath(pending))
  {
  }

  lemma {:induction false} ParseRead(rest: bytes, pending: Option<PaxRecords>, count: nat, total: nat, policy: NamePolicy)
    requires PendingText(pending) && ParseSource(rest, pending, count, total, policy).Some?
    ensures var raws := ParseSource(rest, pending, count, total, policy).value;
      Archive(rest, pending, raws, policy) && Budgeted(raws, count, total)
    decreases |rest|
  {
    hide ReadSource, ParseStrict, EndsArchive, ValidUtf8, SourcePaxOk, PaxFits, ToolRecord, ParseSource, Archive, Budgeted, Extends, Listing, RawOf, Reports, WithinBudget;
    SourceStep(rest, pending, count, total, policy);
    if AllZero(rest[..BLOCK]) {
      ArchiveEnds(rest, policy);
      NothingBudgeted(count, total);
    } else {
      var record := ReadSource(rest, PendingPath(pending)).value;
      ToolRecordExactly(rest, PendingPath(pending), record);
      if record.header.memberType == XHDTYPE {
        var records := ParseStrict(record.data, NO_RECORDS).value;
        StrictExactly(record.data, records);
        ParseRead(record.tail, Some(records), count, total, policy);
        ArchiveExtends(rest, record, records, ParseSource(record.tail, Some(records), count, total, policy).value, policy);
      } else {
        var size := if record.header.memberType == REGTYPE then |record.data| else 0;
        var later := ParseSource(record.tail, None, count + 1, total + size, policy).value;
        ParseRead(record.tail, None, count + 1, total + size, policy);
        var raw := RawOf(record, pending);
        ReportsIs(raw, record, pending);
        if pending.Some? { PaxFitsExactly(pending.value, record.header.modified, policy); }
        ArchiveGrows(rest, pending, record, raw, later, policy);
        SizeOf(raw, record, pending);
        BudgetedStep([raw] + later, count, total);
        assert ([raw] + later)[1..] == later;
      }
    }
  }

  lemma SizeOf(raw: RawMember, record: SourceRecord, pending: Option<PaxRecords>)
    requires Reports(raw, record.header, record.data, PendingPath(pending))
    ensures FileSize(raw) == if record.header.memberType == REGTYPE then |record.data| else 0
  {
  }

  lemma NothingBudgeted(count: nat, total: nat)
    ensures Budgeted([], count, total)
  {
  }

  lemma ArchiveEnds(rest: bytes, policy: NamePolicy)
    ensures EndsArchive(rest) ==> Archive(rest, None, [], policy)
  {
  }

  lemma ArchiveExtends(rest: bytes, ext: SourceRecord, records: PaxRecords, raws: seq<RawMember>, policy: NamePolicy)
    requires PendingText(Some(records)) && ToolRecord(rest, None, ext) && Announces(ext, records) && Archive(ext.tail, Some(records), raws, policy)
    ensures Archive(rest, None, raws, policy)
  {
    hide ToolRecord, Announces, Member, ValidUtf8;
  }

  lemma ArchiveGrows(rest: bytes, pending: Option<PaxRecords>, record: SourceRecord, raw: RawMember, later: seq<RawMember>, policy: NamePolicy)
    requires PendingText(pending) && Member(rest, pending, record, raw, policy) && Archive(record.tail, None, later, policy)
    ensures Archive(rest, pending, [raw] + later, policy)
  {
    hide Member, ValidUtf8, ToolRecord, Announces;
    assert ([raw] + later)[1..] == later;
  }

  lemma {:induction false} ParseReads(rest: bytes, pending: Option<PaxRecords>, raws: seq<RawMember>, count: nat, total: nat, policy: NamePolicy)
    requires PendingText(pending) && Archive(rest, pending, raws, policy) && Budgeted(raws, count, total)
    ensures ParseSource(rest, pending, count, total, policy) == Some(raws)
    decreases |raws|, if pending.None? then 1 else 0
  {
    hide ReadSource, ParseStrict, EndsArchive, ValidUtf8, SourcePaxOk, PaxFits, ToolRecord, ParseSource, Budgeted, Extends, Listing, RawOf, Reports, WithinBudget,
      ToolHeader, AllZero;
    SourceStep(rest, pending, count, total, policy);
    if raws == [] {
      EndIsZero(rest);
    } else if exists record :: Member(rest, pending, record, raws[0], policy) && Archive(record.tail, None, raws[1..], policy) {
      var record :| Member(rest, pending, record, raws[0], policy) && Archive(record.tail, None, raws[1..], policy);
      RecordReads(rest, PendingPath(pending), record);
      ReportsIs(raws[0], record, pending);
      if pending.Some? { PaxFitsExactly(pending.value, record.header.modified, policy); }
      SizeOf(raws[0], record, pending);
      BudgetedStep(raws, count, total);
      ParseReads(record.tail, None, raws[1..], count + 1, total + FileSize(raws[0]), policy);
      assert [raws[0]] + raws[1..] == raws;
    } else {
      var ext, records :| PendingText(Some(records)) && ToolRecord(rest, None, ext) && Announces(ext, records) && Archive(ext.tail, Some(records), raws, policy);
      RecordReads(rest, None, ext);
      AnnouncedReads(ext, records);
      ParseReads(ext.tail, Some(records), raws, count, total, policy);
    }
  }

  lemma RecordReads(rest: bytes, path: Option<bytes>, record: SourceRecord)
    requires path.Some? ==> ValidUtf8(path.value)
    requires ToolRecord(rest, path, record)
    ensures |rest| >= BLOCK && !AllZero(rest[..BLOCK]) && ReadSource(rest, path) == Some(record)
  {
    hide ToolHeader, ReadSource, ValidUtf8;
    ToolRecordExactly(rest, path, record);
    ToolHeaderIsNotZero(rest[..BLOCK], path, record.header);
  }

  lemma AnnouncedReads(ext: SourceRecord, records: PaxRecords)
    requires Announces(ext, records)
    ensures ext.header.memberType == XHDTYPE && |ext.data| <= MAX_PAX_HEADER_BYTES && ParseStrict(ext.data, NO_RECORDS) == Some(records)
  {
    hide ParseStrict, Listing, Extends;
    var pairs :| Listing(ext.data, pairs) && Extends(PaxRecords(None, None), pairs, records);
    StrictReads(ext.data, pairs, NO_RECORDS, records);
  }

  lemma EndIsZero(rest: bytes)
    requires EndsArchive(rest)
    ensures |rest| >= BLOCK && AllZero(rest[..BLOCK])
  {
  }

  /** A build tool's tar is read exactly when it is an archive of these members within the budgets. */
  lemma ArchiveExactly(tar: bytes, raws: seq<RawMember>, policy: NamePolicy)
    ensures ParseSource(tar, None, 0, 0, policy) == Some(raws) <==> Archive(tar, None, raws, policy) && Budgeted(raws, 0, 0)
  {
    hide ParseSource, Archive, Budgeted;
    if ParseSource(tar, None, 0, 0, policy) == Some(raws) { ParseRead(tar, None, 0, 0, policy); }
    if Archive(tar, None, raws, policy) && Budgeted(raws, 0, 0) { ParseReads(tar, None, raws, 0, 0, policy); }
  }
}
