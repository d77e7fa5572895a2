/** The 512-byte ustar header (POSIX.1 `pax`, "ustar Interchange Format"): the canonical
    writer, the release verifier's check, and the looser check of build output. */
module TarHeader {
  import opened Outcomes
  import opened Bytes
  import opened Text

  const BLOCK: nat := 512
  const NAME_WIDTH: nat := 100
  const MODE_LIMIT: nat := 0x20_0000
  const SIZE_LIMIT: nat := 0x2_0000_0000
  const CHECKSUM_LIMIT: nat := 0x4_0000

  const REGTYPE: byte := 0x30
  const DIRTYPE: byte := 0x35
  const XHDTYPE: byte := 0x78

  const FILE_MODE: nat := 0x1a4
  const DIRECTORY_MODE: nat := 0x1ed

  const PAX_NAME: bytes := [0x2e, 0x2f, 0x2e, 0x2f, 0x40, 0x50, 0x61, 0x78, 0x48, 0x65, 0x61, 0x64, 0x65, 0x72]
  const USTAR: bytes := [0x75, 0x73, 0x74, 0x61, 0x72, 0]
  const VERSION: bytes := [0x30, 0x30]

  lemma Limits()
    ensures MODE_LIMIT == Pow(8, 7) && SIZE_LIMIT == Pow(8, 11) && CHECKSUM_LIMIT == Pow(8, 6)
  {
    assert Pow(8, 6) == 8 * Pow(8, 5) == 64 * Pow(8, 4) == 512 * Pow(8, 3) == 4096 * Pow(8, 2) == 32768 * Pow(8, 1);
    assert Pow(8, 1) == 8 * Pow(8, 0) == 8;
    assert Pow(8, 11) == 8 * Pow(8, 10) == 64 * Pow(8, 9) == 512 * Pow(8, 8) == 4096 * Pow(8, 7);
    assert Pow(8, 7) == 8 * Pow(8, 6);
  }

  // ---- the canonical header ----

  function Padded(value: bytes, width: nat): (field: bytes)
    requires |value| <= width
    ensures |field| == width
  {
    value + Zeros(width - |value|)
  }

  /** `_tar_octal` within its width: digits and a terminating NUL. */
  function TarOctal(value: nat, width: nat): (field: bytes)
    requires width >= 1
    ensures |field| == width
  {
    Octal(value, width - 1) + [0]
  }

  /** Name, mode, owner, group, size and modification time: the bytes before the checksum. */
  function Front(name: bytes, mode: nat, size: nat, modified: nat): (front: bytes)
    requires |name| <= NAME_WIDTH
    ensures |front| == 148
  {
    Padded(name, NAME_WIDTH) + TarOctal(mode, 8) + TarOctal(0, 8) + TarOctal(0, 8)
    + TarOctal(size, 12) + TarOctal(modified, 12)
  }

  /** The bytes after the checksum. */
  function Back(memberType: byte): (back: bytes)
    ensures |back| == 356
  {
    [memberType] + Zeros(100) + USTAR + VERSION + Zeros(247)
  }

  function ChecksumOf(front: bytes, back: bytes): nat {
    Sum(front) + 8 * SPACE as int + Sum(back)
  }

  function ChecksumField(checksum: nat): (field: bytes)
    ensures |field| == 8
  {
    Octal(checksum, 6) + [0, SPACE]
  }

  function CanonicalHeader(name: bytes, mode: nat, size: nat, modified: nat, memberType: byte): (header: bytes)
    requires |name| <= NAME_WIDTH
    ensures |header| == BLOCK
  {
    var front, back := Front(name, mode, size, modified), Back(memberType);
    front + ChecksumField(ChecksumOf(front, back)) + back
  }

  lemma ChecksumFits(front: bytes, back: bytes)
    requires |front| == 148 && |back| == 356
    ensures ChecksumOf(front, back) < CHECKSUM_LIMIT
  {
    SumBound(front);
    SumBound(back);
  }

  // ---- the writer ----

  /** `buffer[at:at + len(field)] = field` on a byte array */
  function Splice(buffer: bytes, at: nat, field: bytes): (r: bytes)
    requires at + |field| <= |buffer|
    ensures |r| == |buffer|
  {
    buffer[..at] + field + buffer[at + |field|..]
  }

  /** Filling the next field of a buffer whose remainder is still zero. */
  lemma Fill(done: bytes, zeros: nat, field: bytes)
    requires |field| <= zeros
    ensures Splice(done + Zeros(zeros), |done|, field) == done + field + Zeros(zeros - |field|)
  {
    var buffer := done + Zeros(zeros);
    assert buffer[..|done|] == done;
    assert buffer[|done| + |field|..] == Zeros(zeros - |field|);
  }

  lemma Skip(done: bytes, zeros: nat, gap: nat)
    requires gap <= zeros
    ensures done + Zeros(zeros) == done + Zeros(gap) + Zeros(zeros - gap)
  {
    assert Zeros(zeros) == Zeros(gap) + Zeros(zeros - gap);
  }

  /** `_canonical_tar_header` */
  method CanonicalTarHeader(name: bytes, mode: nat, size: nat, modified: nat, memberType: byte) returns (r: Result<bytes>)
    ensures r.Ok? <==>
      1 <= |name| <= NAME_WIDTH && mode < MODE_LIMIT && size < SIZE_LIMIT && modified < SIZE_LIMIT
    ensures r.Ok? ==> r.value == CanonicalHeader(name, mode, size, modified, memberType)
  {
    if !(0 < |name| <= NAME_WIDTH) {
      return Err("canonical tar name exceeds its fixed-width boundary");
    }
    if mode >= MODE_LIMIT || size >= SIZE_LIMIT || modified >= SIZE_LIMIT {
      return Err("canonical tar numeric field exceeds its fixed-width boundary");
    }
    hide TarOctal, Splice, Zeros, CanonicalHeader;
    var header := Splice(Zeros(BLOCK), 0, name);
    NameFilled(name);
    var front := Padded(name, NAME_WIDTH);
    Fill(front, 412, TarOctal(mode, 8));
    header := Splice(header, 100, TarOctal(mode, 8));
    front := front + TarOctal(mode, 8);
    Fill(front, 404, TarOctal(0, 8));
    header := Splice(header, 108, TarOctal(0, 8));
    front := front + TarOctal(0, 8);
    Fill(front, 396, TarOctal(0, 8));
    header := Splice(header, 116, TarOctal(0, 8));
    front := front + TarOctal(0, 8);
    Fill(front, 388, TarOctal(size, 12));
    header := Splice(header, 124, TarOctal(size, 12));
    front := front + TarOctal(size, 12);
    Fill(front, 376, TarOctal(modified, 12));
    header := Splice(header, 136, TarOctal(modified, 12));
    front := front + TarOctal(modified, 12);
    assert front == Front(name, mode, size, modified);
    header := FinishHeader(front, header, memberType);
    assert header == CanonicalHeader(name, mode, size, modified, memberType) by {
      CanonicalHeaderIs(name, mode, size, modified, memberType);
    }
    return Ok(header);
  }

  lemma NameFilled(name: bytes)
    requires |name| <= NAME_WIDTH
    ensures Splice(Zeros(BLOCK), 0, name) == Padded(name, NAME_WIDTH) + Zeros(412)
  {
    assert [] + Zeros(BLOCK) == Zeros(BLOCK) && [] + name == name;
    Fill([], BLOCK, name);
    Skip(name, BLOCK - |name|, NAME_WIDTH - |name|);
  }

  lemma CanonicalHeaderIs(name: bytes, mode: nat, size: nat, modified: nat, memberType: byte)
    requires |name| <= NAME_WIDTH
    ensures var front := Front(name, mode, size, modified);
      CanonicalHeader(name, mode, size, modified, memberType)
      == front + ChecksumField(ChecksumOf(front, Back(memberType))) + Back(memberType)
  {
  }

  /** The rest of `_canonical_tar_header`: type, magic, and the checksum of it all. */
  method FinishHeader(ghost front: bytes, begun: bytes, memberType: byte) returns (header: bytes)
    requires |front| == 148 && begun == front + Zeros(364)
    ensures header == front + ChecksumField(ChecksumOf(front, Back(memberType))) + Back(memberType)
  {
    hide Octal, Sum;
    var spaces: bytes := seq(8, i => SPACE);
    Fill(front, 364, spaces);
    header := Splice(begun, 148, spaces);
    ghost var done := front + spaces;
    Fill(done, 356, [memberType]);
    header := Splice(header, 156, [memberType]);
    done := done + [memberType];
    Skip(done, 355, 100);
    done := done + Zeros(100);
    Fill(done, 255, USTAR);
    header := Splice(header, 257, USTAR);
    done := done + USTAR;
    Fill(done, 249, VERSION);
    header := Splice(header, 263, VERSION);
    assert header == front + spaces + Back(memberType);
    var checksum := Sum(header);
    ChecksumWithSpaces(front, Back(memberType), spaces);
    header := Splice(header, 148, ChecksumField(checksum));
    assert header == front + ChecksumField(checksum) + Back(memberType);
  }

  lemma ChecksumWithSpaces(front: bytes, back: bytes, spaces: bytes)
    requires spaces == seq(8, i => SPACE)
    ensures Sum(front + spaces + back) == ChecksumOf(front, back)
  {
    SumConcat(front + spaces, back);
    SumConcat(front, spaces);
    assert spaces == [SPACE, SPACE, SPACE, SPACE, SPACE, SPACE, SPACE, SPACE];
    assert Sum(spaces) == 8 * 32 by {
      var one: bytes := [SPACE];
      assert Sum(one) == 32 by { assert one[1..] == []; }
      var two := one + one; SumConcat(one, one);
      var four := two + two; SumConcat(two, two);
      SumConcat(four, four);
      assert spaces == four + four;
    }
  }

  // ---- fields ----

  /** `_canonical_octal`, `_tar_canonical_octal` */
  function CanonicalOctal(field: bytes): Option<nat> {
    if |field| < 2 || field[|field| - 1] != 0 || !AllOctal(field[..|field| - 1]) then None
    else Some(OctalValue(field[..|field| - 1]))
  }

  lemma CanonicalOctalExact(field: bytes, value: nat)
    requires |field| >= 2
    ensures CanonicalOctal(field) == Some(value) <==> value < Pow(8, |field| - 1) && field == TarOctal(value, |field|)
  {
    var w := |field| - 1;
    var digits := field[..w];
    assert field == digits + [field[w]];
    if CanonicalOctal(field) == Some(value) {
      OctalSpelling(digits);
    }
    if value < Pow(8, w) && field == TarOctal(value, |field|) {
      OctalRoundTrip(value, w);
      assert digits == Octal(value, w);
    }
  }

  /** `_nul_padded`, `_tar_nul_padded` */
  function NulPadded(field: bytes, allowEmpty: bool): Option<bytes> {
    var at := Find(field, 0, 0);
    if at == |field| || !AllZero(field[at..]) || (!allowEmpty && at == 0) then None else Some(field[..at])
  }

  /** `_source_tar_name`, `_tar_header_name` */
  function HeaderName(field: bytes, paxPath: Option<bytes>): (name: Option<bytes>)
    requires paxPath.Some? ==> ValidUtf8(paxPath.value)
    ensures name.Some? ==> |name.value| <= |field|
  {
    match paxPath
    case None =>
      var value := if 0 !in field then Some(field) else NulPadded(field, false);
      if value.None? || !Ascii(value.value) then None else value
    case Some(path) =>
      var placeholder := BaseName(path, |field|);
      if field == Padded(placeholder, |field|) then Some(placeholder) else None
  }

  /** The ASCII stand-in for a path that travels in an extended header. */
  function BaseName(path: bytes, width: nat): (name: bytes)
    requires ValidUtf8(path)
    ensures |name| <= width
  {
    var replaced := AsciiReplace(path);
    if |replaced| <= width then replaced else replaced[..width]
  }

  lemma PlainNameExact(field: bytes, name: bytes)
    requires |field| == NAME_WIDTH
    ensures HeaderName(field, None) == Some(name) <==>
      1 <= |name| <= NAME_WIDTH && Ascii(name) && 0 !in name && field == Padded(name, NAME_WIDTH)
  {
    if 0 !in field {
      if 1 <= |name| <= NAME_WIDTH && field == Padded(name, NAME_WIDTH) {
        assert |name| < NAME_WIDTH ==> field[|name|] == 0;
        assert |name| == NAME_WIDTH ==> Padded(name, NAME_WIDTH) == name;
      }
      assert Padded(field, NAME_WIDTH) == field;
    } else {
      var at := Find(field, 0, 0);
      assert at < |field|;
      if HeaderName(field, None) == Some(name) {
        AllZeroIsZeros(field[at..]);
        assert field == field[..at] + field[at..];
      }
      if 1 <= |name| <= NAME_WIDTH && 0 !in name && field == Padded(name, NAME_WIDTH) {
        assert forall i :: 0 <= i < |name| ==> field[i] == name[i];
        assert |name| < NAME_WIDTH;
        assert field[|name|] == 0;
        assert at == |name|;
        assert field[..at] == name;
        assert AllZero(field[at..]);
      }
    }
  }

  // ---- the verifier's check ----

  /** The checks on the checksum and on the bytes that are the same in every header. */
  predicate FrameOk(header: bytes)
    requires |header| == BLOCK
  {
    && AllOctal(header[148..154]) && header[154] == 0 && header[155] == SPACE
    && OctalValue(header[148..154]) == ChecksumOf(header[..148], header[156..])
    && AllZero(header[157..257]) && header[257..263] == USTAR && header[263..265] == VERSION
  }

  /** `_validate_canonical_tar_header` */
  function CheckHeader(header: bytes, expectedMtime: nat, paxPath: Option<bytes>): (r: Result<(nat, byte)>)
    requires |header| == BLOCK && (paxPath.Some? ==> ValidUtf8(paxPath.value))
  {
    var name := HeaderName(header[..100], paxPath);
    var mode := CanonicalOctal(header[100..108]);
    var uid := CanonicalOctal(header[108..116]);
    var gid := CanonicalOctal(header[116..124]);
    var size := CanonicalOctal(header[124..136]);
    var modified := CanonicalOctal(header[136..148]);
    var memberType := header[156];
    if name.None? then Err("tar header has a noncanonical name")
    else if mode.None? || uid.None? || gid.None? || size.None? || modified.None? then
      Err("tar header has a noncanonical number")
    else if memberType !in {XHDTYPE, REGTYPE, DIRTYPE} then Err("unsupported member type")
    else if !FrameOk(header) || !AllZero(header[265..345]) || !AllZero(header[345..512]) then
      Err("tar header has a noncanonical checksum, owner, device, or reserved fields")
    else
      var directorySpelling := EndsInSlash(if paxPath.Some? then paxPath.value else name.value);
      var owned := uid.value == 0 && gid.value == 0;
      var accepted :=
        if memberType == XHDTYPE then
          name.value == PAX_NAME && mode.value == 0 && owned && modified.value == 0
        else if memberType == REGTYPE then
          mode.value == FILE_MODE && owned && modified.value == expectedMtime && !directorySpelling
        else
          mode.value == DIRECTORY_MODE && owned && modified.value == expectedMtime && size.value == 0 && directorySpelling;
      if accepted then Ok((size.value, memberType)) else Err("tar header is noncanonical")
  }

  predicate EndsInSlash(path: bytes) {
    path != [] && path[|path| - 1] == SLASH
  }

  /** The header the canonical writer makes for a member of this type, name and size. */
  ghost predicate WrittenHeader(header: bytes, expectedMtime: nat, name: bytes, directorySpelling: bool, size: nat, memberType: byte)
    requires |name| <= NAME_WIDTH
  {
    && size < SIZE_LIMIT
    && (memberType == XHDTYPE ==> name == PAX_NAME && header == CanonicalHeader(PAX_NAME, 0, size, 0, XHDTYPE))
    && (memberType != XHDTYPE ==> expectedMtime < SIZE_LIMIT)
    && (memberType == REGTYPE ==>
          !directorySpelling && header == CanonicalHeader(name, FILE_MODE, size, expectedMtime, REGTYPE))
    && (memberType == DIRTYPE ==>
          directorySpelling && size == 0 && header == CanonicalHeader(name, DIRECTORY_MODE, 0, expectedMtime, DIRTYPE))
    && memberType in {XHDTYPE, REGTYPE, DIRTYPE}
  }

  lemma FrontExact(front: bytes, name: bytes, mode: nat, size: nat, modified: nat)
    requires |front| == 148 && |name| <= NAME_WIDTH
    ensures front == Front(name, mode, size, modified) <==>
      && front[..100] == Padded(name, NAME_WIDTH) && front[100..108] == TarOctal(mode, 8)
      && front[108..116] == TarOctal(0, 8) && front[116..124] == TarOctal(0, 8)
      && front[124..136] == TarOctal(size, 12) && front[136..148] == TarOctal(modified, 12)
  {
    hide Padded, TarOctal;
    assert front == front[..100] + front[100..108] + front[108..116] + front[116..124] + front[124..136] + front[136..148];
    var f := Front(name, mode, size, modified);
    assert f[..100] == Padded(name, NAME_WIDTH) && f[100..108] == TarOctal(mode, 8);
    assert f[108..116] == TarOctal(0, 8) && f[116..124] == TarOctal(0, 8);
    assert f[124..136] == TarOctal(size, 12) && f[136..148] == TarOctal(modified, 12);
  }

  lemma BackExact(back: bytes, memberType: byte)
    requires |back| == 356
    ensures back == Back(memberType) <==>
      && back[0] == memberType && AllZero(back[1..101]) && back[101..107] == USTAR
      && back[107..109] == VERSION && AllZero(back[109..356])
  {
    var b := Back(memberType);
    assert back == [back[0]] + back[1..101] + back[101..107] + back[107..109] + back[109..356];
    assert b[0] == memberType && b[1..101] == Zeros(100) && b[101..107] == USTAR;
    assert b[107..109] == VERSION && b[109..356] == Zeros(247);
    AllZeroIsZeros(back[1..101]);
    AllZeroIsZeros(back[109..356]);
  }

  /** The frame of a header is right exactly when its checksum field spells its checksum. */
  lemma FrameExact(header: bytes)
    requires |header| == BLOCK
    ensures FrameOk(header) && AllZero(header[265..512]) <==>
      header == header[..148] + ChecksumField(ChecksumOf(header[..148], Back(header[156]))) + Back(header[156])
  {
    hide Sum, Octal, OctalValue;
    var front, field, back := header[..148], header[148..156], header[156..];
    var digits := header[148..154];
    assert header == front + field + back;
    assert field == digits + [header[154], header[155]];
    BackExact(back, header[156]);
    assert back[1..101] == header[157..257] && back[101..107] == header[257..263];
    assert back[107..109] == header[263..265] && back[109..356] == header[265..512];
    ChecksumFits(front, back);
    Limits();
    if FrameOk(header) && AllZero(header[265..512]) {
      OctalSpelling(digits);
    }
    var checksum := ChecksumOf(front, Back(header[156]));
    if header == front + ChecksumField(checksum) + Back(header[156]) {
      OctalRoundTrip(checksum, 6);
      assert field == ChecksumField(checksum) && back == Back(header[156]);
      assert digits == Octal(checksum, 6);
    }
  }

  /** A header is canonical exactly when its frame and its front are. */
  lemma CanonicalHeaderSplits(header: bytes, name: bytes, mode: nat, size: nat, modified: nat, memberType: byte)
    requires |header| == BLOCK && |name| <= NAME_WIDTH
    ensures header == CanonicalHeader(name, mode, size, modified, memberType) <==>
      && header[156] == memberType && FrameOk(header) && AllZero(header[265..512])
      && header[..148] == Front(name, mode, size, modified)
  {
    hide FrameOk, Front, Back, ChecksumField, ChecksumOf;
    FrameExact(header);
    var front, back := Front(name, mode, size, modified), Back(memberType);
    var h := CanonicalHeader(name, mode, size, modified, memberType);
    assert h[..148] == front && h[156..] == back;
    BackHead(memberType);
    assert h[156] == memberType;
  }

  lemma BackHead(memberType: byte)
    ensures Back(memberType)[0] == memberType
  {
  }

  /** The numbers in a front, read field by field. */
  lemma NumbersExact(header: bytes, name: bytes, mode: nat, size: nat, modified: nat)
    requires |header| == BLOCK && |name| <= NAME_WIDTH
    requires mode < MODE_LIMIT
    ensures size < SIZE_LIMIT && modified < SIZE_LIMIT && header[..148] == Front(name, mode, size, modified) <==>
      && header[..100] == Padded(name, NAME_WIDTH)
      && CanonicalOctal(header[100..108]) == Some(mode)
      && CanonicalOctal(header[108..116]) == Some(0) && CanonicalOctal(header[116..124]) == Some(0)
      && CanonicalOctal(header[124..136]) == Some(size) && CanonicalOctal(header[136..148]) == Some(modified)
  {
    hide Front, CanonicalOctal, Padded, TarOctal;
    Limits();
    FrontExact(header[..148], name, mode, size, modified);
    CanonicalOctalExact(header[100..108], mode);
    CanonicalOctalExact(header[108..116], 0);
    CanonicalOctalExact(header[116..124], 0);
    CanonicalOctalExact(header[124..136], size);
    CanonicalOctalExact(header[136..148], modified);
    assert header[..148][..100] == header[..100];
    assert header[..148][100..108] == header[100..108] && header[..148][108..116] == header[108..116];
    assert header[..148][116..124] == header[116..124] && header[..148][124..136] == header[124..136];
    assert header[..148][136..148] == header[136..148];
  }

  lemma NameFillsField(field: bytes, paxPath: Option<bytes>)
    requires |field| == NAME_WIDTH && (paxPath.Some? ==> ValidUtf8(paxPath.value))
    requires HeaderName(field, paxPath).Some?
    ensures field == Padded(HeaderName(field, paxPath).value, NAME_WIDTH)
  {
    if paxPath.None? {
      PlainNameExact(field, HeaderName(field, paxPath).value);
    }
  }

  /** A header with this name in it is canonical exactly when every field the verifier reads is. */
  lemma CanonicalFields(header: bytes, name: bytes, mode: nat, size: nat, modified: nat, memberType: byte)
    requires |header| == BLOCK && |name| <= NAME_WIDTH && mode < MODE_LIMIT && header[..100] == Padded(name, NAME_WIDTH)
    ensures size < SIZE_LIMIT && modified < SIZE_LIMIT && header == CanonicalHeader(name, mode, size, modified, memberType) <==>
      && header[156] == memberType && FrameOk(header) && AllZero(header[265..345]) && AllZero(header[345..512])
      && CanonicalOctal(header[100..108]) == Some(mode)
      && CanonicalOctal(header[108..116]) == Some(0) && CanonicalOctal(header[116..124]) == Some(0)
      && CanonicalOctal(header[124..136]) == Some(size) && CanonicalOctal(header[136..148]) == Some(modified)
  {
    hide FrameOk, CanonicalOctal, CanonicalHeader, Front, AllZero, Padded;
    assert header[265..512] == header[265..345] + header[345..512];
    AllZeroConcat(header[265..345], header[345..512]);
    CanonicalHeaderSplits(header, name, mode, size, modified, memberType);
    NumbersExact(header, name, mode, size, modified);
  }

  /** The verifier accepts a header exactly when the canonical writer makes it for the name
      it carries. */
  lemma HeaderExact(header: bytes, expectedMtime: nat, paxPath: Option<bytes>, size: nat, memberType: byte)
    requires |header| == BLOCK && (paxPath.Some? ==> ValidUtf8(paxPath.value))
    ensures CheckHeader(header, expectedMtime, paxPath) == Ok((size, memberType)) <==>
      var name := HeaderName(header[..100], paxPath);
      && name.Some?
      && WrittenHeader(header, expectedMtime, name.value,
           EndsInSlash(if paxPath.Some? then paxPath.value else name.value), size, memberType)
  {
    hide FrameOk, CanonicalOctal, HeaderName, CanonicalHeader, Front, AllZero, Padded, EndsInSlash, PAX_NAME;
    Limits();
    var name := HeaderName(header[..100], paxPath);
    if name.Some? {
      NameFillsField(header[..100], paxPath);
      if memberType == XHDTYPE {
        if name.value == PAX_NAME { CanonicalFields(header, PAX_NAME, 0, size, 0, XHDTYPE); }
      } else if memberType == REGTYPE {
        CanonicalFields(header, name.value, FILE_MODE, size, expectedMtime, REGTYPE);
      } else if memberType == DIRTYPE {
        CanonicalFields(header, name.value, DIRECTORY_MODE, 0, expectedMtime, DIRTYPE);
      }
    }
  }

  lemma AllZeroConcat(a: bytes, b: bytes)
    ensures AllZero(a + b) <==> AllZero(a) && AllZero(b)
  {
    var s := a + b;
    assert forall i :: 0 <= i < |a| ==> s[i] == a[i];
    assert forall i {:trigger b[i]} :: 0 <= i < |b| ==> s[|a| + i] == b[i];
    if AllZero(a) && AllZero(b) {
      assert forall i :: |a| <= i < |s| ==> s[i] == b[i - |a|];
    }
  }

  // ---- the check of build output ----

  /** The fields of a header from a build tool; owner, mode and time are free. */
  datatype SourceHeader = SourceHeader(
    name: bytes, mode: nat, size: nat, modified: nat, memberType: byte, uname: bytes, gname: bytes)

  /** `_validate_source_tar_header` */
  function CheckSourceHeader(header: bytes, paxPath: Option<bytes>): (r: Result<SourceHeader>)
    requires |header| == BLOCK && (paxPath.Some? ==> ValidUtf8(paxPath.value))
    ensures r.Ok? ==> r.value.memberType in {XHDTYPE, REGTYPE, DIRTYPE}
  {
    var name := HeaderName(header[..100], paxPath);
    var mode := CanonicalOctal(header[100..108]);
    var uid := CanonicalOctal(header[108..116]);
    var gid := CanonicalOctal(header[116..124]);
    var size := CanonicalOctal(header[124..136]);
    var modified := CanonicalOctal(header[136..148]);
    var memberType := header[156];
    var uname := NulPadded(header[265..297], true);
    var gname := NulPadded(header[297..329], true);
    if name.None? then Err("source tar name field is noncanonical")
    else if mode.None? || uid.None? || gid.None? || size.None? || modified.None? then
      Err("source tar number field is noncanonical")
    else if memberType !in {XHDTYPE, REGTYPE, DIRTYPE} then Err("member type is unsupported")
    else if !FrameOk(header) || !AllZero(header[329..345]) || !AllZero(header[345..512]) then
      Err("source tar checksum or reserved fields are noncanonical")
    else if uname.None? || gname.None? then Err("source tar owner name field is noncanonical")
    else if memberType == XHDTYPE
            && (header[..Find(header[..100], 0, 0)] != PAX_NAME || mode.value != 0 || uid.value != 0
                || gid.value != 0 || modified.value != 0 || !AllZero(header[265..329])) then
      Err("source PAX tar header is noncanonical")
    else Ok(SourceHeader(name.value, mode.value, size.value, modified.value, memberType, uname.value, gname.value))
  }

  /** Canonical headers pass the check of build output, with the fields they were made from. */
  lemma SourceReadsCanonical(header: bytes, name: bytes, mode: nat, size: nat, modified: nat, memberType: byte, paxPath: Option<bytes>)
    requires |header| == BLOCK && |name| <= NAME_WIDTH && (paxPath.Some? ==> ValidUtf8(paxPath.value))
    requires mode < MODE_LIMIT && size < SIZE_LIMIT && modified < SIZE_LIMIT
    requires memberType in {XHDTYPE, REGTYPE, DIRTYPE}
    requires header == CanonicalHeader(name, mode, size, modified, memberType)
    requires HeaderName(header[..100], paxPath) == Some(name)
    requires memberType == XHDTYPE ==> name == PAX_NAME && mode == 0 && modified == 0
    ensures CheckSourceHeader(header, paxPath) == Ok(SourceHeader(name, mode, size, modified, memberType, [], []))
  {
    hide FrameOk, CanonicalOctal, HeaderName, CanonicalHeader, Front;
    CanonicalHeaderSplits(header, name, mode, size, modified, memberType);
    NumbersExact(header, name, mode, size, modified);
    ZeroSlices(header);
    if memberType == XHDTYPE {
      assert header[..100] == Padded(PAX_NAME, NAME_WIDTH);
      assert header[14] == header[..100][14] == 0;
      assert Find(header[..100], 0, 0) == 14;
      assert header[..14] == header[..100][..14] == PAX_NAME;
    }
  }

  lemma ZeroSlices(header: bytes)
    requires |header| == BLOCK && AllZero(header[265..512])
    ensures AllZero(header[265..329]) && AllZero(header[329..345]) && AllZero(header[345..512])
    ensures NulPadded(header[265..297], true) == Some([]) && NulPadded(header[297..329], true) == Some([])
  {
    assert forall i :: 265 <= i < 512 ==> header[i] == header[265..512][i - 265];
    assert header[265..297][0] == header[265] && header[297..329][0] == header[297];
    assert Find(header[265..297], 0, 0) == 0 && Find(header[297..329], 0, 0) == 0;
    assert header[265..297][..0] == [] && header[297..329][..0] == [];
  }
}
