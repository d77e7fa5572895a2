/** UTF-8 text as byte strings, and the portable archive names built from it. */
module Text {
  import opened Outcomes
  import opened Bytes
  import opened ReleaseContract

  // ---- UTF-8 ----

  predicate Continuation(b: byte) {
    0x80 <= b <= 0xbf
  }

  /** Length of the well-formed UTF-8 character at the head of `s`; zero when there is none. */
  function CharSize(s: bytes): (n: nat)
    ensures n <= 4 && n <= |s|
    ensures s != [] ==> (n == 1 <==> s[0] < 0x80)
  {
    if s == [] then 0
    else
      var b := s[0];
      if b < 0x80 then 1
      else if 0xc2 <= b <= 0xdf && |s| >= 2 && Continuation(s[1]) then 2
      else if |s| >= 3 && Continuation(s[1]) && Continuation(s[2]) &&
              (0xe1 <= b <= 0xef || (b == 0xe0 && s[1] >= 0xa0)) && (b == 0xed ==> s[1] <= 0x9f) then 3
      else if |s| >= 4 && Continuation(s[1]) && Continuation(s[2]) && Continuation(s[3]) &&
              (0xf1 <= b <= 0xf3 || (b == 0xf0 && s[1] >= 0x90) || (b == 0xf4 && s[1] <= 0x8f)) then 4
      else 0
  }

  predicate ValidUtf8(s: bytes) {
    s == [] || (CharSize(s) > 0 && ValidUtf8(s[CharSize(s)..]))
  }

  function CharCount(s: bytes): (n: nat)
    requires ValidUtf8(s)
    ensures n <= |s| <= 4 * n
  {
    if s == [] then 0 else 1 + CharCount(s[CharSize(s)..])
  }

  /** `encode("ascii", errors="replace")`: one question mark per non-ASCII character. */
  function AsciiReplace(s: bytes): (r: bytes)
    requires ValidUtf8(s)
    ensures |r| == CharCount(s)
    ensures forall i :: 0 <= i < |r| ==> r[i] < 128
  {
    if s == [] then []
    else [if s[0] < 0x80 then s[0] else 0x3f] + AsciiReplace(s[CharSize(s)..])
  }

  lemma {:induction false} AsciiIsUtf8(s: bytes)
    requires Ascii(s)
    ensures ValidUtf8(s)
  {
    if s != [] {
      assert Ascii(s[1..]);
      AsciiIsUtf8(s[1..]);
    }
  }

  lemma CharSizeOfPrefix(a: bytes, b: bytes)
    requires CharSize(a) > 0
    ensures CharSize(a + b) == CharSize(a)
  {
    var s := a + b;
    assert forall i :: 0 <= i < |a| ==> s[i] == a[i];
  }

  lemma {:induction false} Utf8Concat(a: bytes, b: bytes)
    requires ValidUtf8(a) && ValidUtf8(b)
    ensures ValidUtf8(a + b) && CharCount(a + b) == CharCount(a) + CharCount(b)
    decreases |a|
  {
    hide CharSize;
    if a == [] {
      assert a + b == b;
    } else {
      var n := CharSize(a);
      CharSizeOfPrefix(a, b);
      var s := a + b;
      assert s[n..] == a[n..] + b;
      Utf8Concat(a[n..], b);
    }
  }

  // ---- components ----

  /** `text.split(separator)` */
  function Split(s: bytes, separator: byte): (parts: seq<bytes>)
    ensures parts != []
    decreases |s|
  {
    var at := Find(s, separator, 0);
    if at == |s| then [s] else [s[..at]] + Split(s[at + 1..], separator)
  }

  function Join(parts: seq<bytes>, separator: byte): bytes {
    if parts == [] then []
    else if |parts| == 1 then parts[0]
    else parts[0] + [separator] + Join(parts[1..], separator)
  }

  lemma {:induction false} SplitJoin(s: bytes, separator: byte)
    ensures Join(Split(s, separator), separator) == s
    ensures forall i :: 0 <= i < |Split(s, separator)| ==> separator !in Split(s, separator)[i]
    decreases |s|
  {
    var at := Find(s, separator, 0);
    if at < |s| {
      SplitJoin(s[at + 1..], separator);
      assert s == s[..at] + [separator] + s[at + 1..];
      var rest := Split(s[at + 1..], separator);
      assert Split(s, separator) == [s[..at]] + rest && ([s[..at]] + rest)[1..] == rest;
    }
  }

  lemma FindIn(a: bytes, b: byte, rest: bytes)
    requires b !in a
    ensures Find(a + [b] + rest, b, 0) == |a|
  {
    var s := a + [b] + rest;
    assert s[|a|] == b;
    assert forall i :: 0 <= i < |a| ==> s[i] == a[i];
  }

  lemma SplitWhole(s: bytes, separator: byte)
    requires separator !in s
    ensures Split(s, separator) == [s]
  {
    assert Find(s, separator, 0) == |s|;
  }

  lemma SplitAt(first: bytes, separator: byte, rest: bytes)
    requires separator !in first
    ensures Split(first + [separator] + rest, separator) == [first] + Split(rest, separator)
  {
    var s := first + [separator] + rest;
    FindIn(first, separator, rest);
    assert s[..|first|] == first && s[|first| + 1..] == rest;
  }

  lemma {:induction false} SplitOfJoin(parts: seq<bytes>, separator: byte)
    requires parts != [] && forall i :: 0 <= i < |parts| ==> separator !in parts[i]
    ensures Split(Join(parts, separator), separator) == parts
  {
    hide Split;
    if |parts| == 1 {
      SplitWhole(parts[0], separator);
    } else {
      SplitOfJoin(parts[1..], separator);
      SplitAt(parts[0], separator, Join(parts[1..], separator));
      assert parts == [parts[0]] + parts[1..];
    }
  }

  // ---- portable names ----

  /** What the tables of Unicode decide about a name: whether a component is a reserved
      device name, whether text is in normal form C, and the case-folded form under which
      two components are the same on a case-insensitive file system. */
  datatype NamePolicy = NamePolicy(
    reserved: bytes -> bool,
    normal: bytes -> bool,
    fold: bytes -> bytes)

  predicate ComponentOk(part: bytes, policy: NamePolicy) {
    && part !in {[], [0x2e], [0x2e, 0x2e]}
    && part[|part| - 1] !in {0x2e, SPACE}
    && !policy.reserved(part)
    && (forall i :: 0 <= i < |part| ==>
          part[i] >= 32 && part[i] !in {0x3c, 0x3e, 0x3a, 0x22, 0x7c, 0x3f, 0x2a, 0x5c})
    && |part| <= MAX_COMPONENT_BYTES
  }

  predicate ComponentsOk(parts: seq<bytes>, policy: NamePolicy) {
    forall i :: 0 <= i < |parts| ==> ComponentOk(parts[i], policy)
  }

  /** `safe_release_name` on text: the name without a trailing slash, when it is portable. */
  function SafeReleaseName(name: bytes, policy: NamePolicy): (r: Option<bytes>)
    requires ValidUtf8(name)
  {
    if name == [] || CharCount(name) > MAX_NAME_CHARS then None
    else
      var raw := if name[|name| - 1] == SLASH then name[..|name| - 1] else name;
      if ComponentsOk(Split(raw, SLASH), policy) && policy.normal(raw) then Some(raw) else None
  }

  /** A name that is already in its stored form. */
  ghost predicate SafeName(name: bytes, policy: NamePolicy) {
    ValidUtf8(name) && SafeReleaseName(name, policy) == Some(name)
  }

  /** `_portable_alias`, as the list of its folded components. */
  function Alias(name: bytes, policy: NamePolicy): (a: seq<bytes>)
    ensures |a| == |Split(name, SLASH)| && forall i :: 0 <= i < |a| ==> a[i] == policy.fold(Split(name, SLASH)[i])
  {
    Folded(Split(name, SLASH), policy)
  }

  function Folded(parts: seq<bytes>, policy: NamePolicy): (a: seq<bytes>)
    ensures |a| == |parts| && forall i :: 0 <= i < |a| ==> a[i] == policy.fold(parts[i])
  {
    if parts == [] then [] else [policy.fold(parts[0])] + Folded(parts[1..], policy)
  }

  /** The bytes of a safe name are printable and free of the separators of every format. */
  lemma SafeBytes(name: bytes, policy: NamePolicy)
    requires SafeName(name, policy)
    ensures name != [] && name[|name| - 1] != SLASH && |name| <= 4 * MAX_NAME_CHARS
    ensures forall i :: 0 <= i < |name| ==> name[i] >= 32
  {
    assert |name[..|name| - 1]| < |name|;
    SplitJoin(name, SLASH);
    JoinBytes(Split(name, SLASH), policy);
    var parts := Split(name, SLASH);
    JoinLast(parts, SLASH);
  }

  lemma {:induction false} JoinBytes(parts: seq<bytes>, policy: NamePolicy)
    requires ComponentsOk(parts, policy)
    ensures forall i :: 0 <= i < |Join(parts, SLASH)| ==> Join(parts, SLASH)[i] >= 32
  {
    if |parts| > 1 {
      JoinBytes(parts[1..], policy);
    }
  }

  lemma {:induction false} JoinLast(parts: seq<bytes>, separator: byte)
    requires parts != [] && forall i :: 0 <= i < |parts| ==> parts[i] != [] && separator !in parts[i]
    ensures var s := Join(parts, separator); s != [] && s[|s| - 1] != separator
  {
    if |parts| > 1 {
      JoinLast(parts[1..], separator);
    }
  }

  /** What a safe name is reduced to is itself safe. */
  lemma SafeNameIsStable(name: bytes, policy: NamePolicy)
    requires ValidUtf8(name) && SafeReleaseName(name, policy).Some?
    requires ValidUtf8(SafeReleaseName(name, policy).value)
    ensures SafeName(SafeReleaseName(name, policy).value, policy)
  {
    hide ValidUtf8, CharCount;
    var raw := SafeReleaseName(name, policy).value;
    SplitJoin(raw, SLASH);
    JoinLast(Split(raw, SLASH), SLASH);
    assert name == raw || name == raw + [SLASH];
    ShorterCount(raw);
  }

  lemma ShorterCount(raw: bytes)
    requires ValidUtf8(raw)
    ensures ValidUtf8(raw + [SLASH]) && CharCount(raw) <= CharCount(raw + [SLASH])
  {
    var slash: bytes := [SLASH];
    assert slash[1..] == [];
    Utf8Concat(raw, slash);
  }
}
