/** UTF-8 as an encoding of characters (RFC 3629 section 3), and portable names as paths of parts. */
module Unicode {
  import opened Outcomes
  import opened Bytes
  import opened Text

  // ---- characters ----

  /** A code point other than a surrogate. */
  predicate Scalar(c: nat) {
    c < 0xd800 || 0xe000 <= c < 0x11_0000
  }

  function Encoded(c: nat): (s: bytes)
    requires Scalar(c)
    ensures 1 <= |s| <= 4
  {
    if c < 0x80 then [c]
    else if c < 0x800 then [0xc0 + c / 0x40, 0x80 + c % 0x40]
    else if c < 0x1_0000 then [0xe0 + c / 0x1000, 0x80 + c / 0x40 % 0x40, 0x80 + c % 0x40]
    else [0xf0 + c / 0x4_0000, 0x80 + c / 0x1000 % 0x40, 0x80 + c / 0x40 % 0x40, 0x80 + c % 0x40]
  }

  lemma SixBits(high: nat, low: nat)
    requires low < 0x40
    ensures (high * 0x40 + low) / 0x40 == high && (high * 0x40 + low) % 0x40 == low
  {
  }

  lemma TwoBytes(a: nat, b: nat) returns (c: nat)
    requires 2 <= a < 0x20 && b < 0x40
    ensures Scalar(c) && Encoded(c) == [0xc0 + a, 0x80 + b]
  {
    c := a * 0x40 + b;
    SixBits(a, b);
  }

  lemma ThreeBytes(a: nat, b: nat, d: nat) returns (c: nat)
    requires a < 0x10 && b < 0x40 && d < 0x40 && (a == 0 ==> b >= 0x20) && (a == 0xd ==> b < 0x20)
    ensures Scalar(c) && Encoded(c) == [0xe0 + a, 0x80 + b, 0x80 + d]
  {
    c := (a * 0x40 + b) * 0x40 + d;
    SixBits(a * 0x40 + b, d);
    SixBits(a, b);
    assert c / 0x1000 == a;
  }

  lemma FourBytes(a: nat, b: nat, d: nat, e: nat) returns (c: nat)
    requires a <= 4 && b < 0x40 && d < 0x40 && e < 0x40 && (a == 0 ==> b >= 0x10) && (a == 4 ==> b < 0x10)
    ensures Scalar(c) && Encoded(c) == [0xf0 + a, 0x80 + b, 0x80 + d, 0x80 + e]
  {
    c := ((a * 0x40 + b) * 0x40 + d) * 0x40 + e;
    SixBits((a * 0x40 + b) * 0x40 + d, e);
    SixBits(a * 0x40 + b, d);
    SixBits(a, b);
    assert c / 0x1000 == a * 0x40 + b && c / 0x4_0000 == a;
  }

  /** A well-formed head is the encoding of a character. */
  lemma CharRead(s: bytes) returns (c: nat)
    requires CharSize(s) > 0
    ensures Scalar(c) && s[..CharSize(s)] == Encoded(c)
  {
    hide Encoded, Scalar;
    var n := CharSize(s);
    if n == 1 {
      c := s[0];
      OneByte(c);
      assert s[..1] == [s[0]];
    } else if n == 2 {
      c := TwoBytes(s[0] as nat - 0xc0, s[1] as nat - 0x80);
      assert s[..2] == [s[0], s[1]];
    } else if n == 3 {
      c := ThreeBytes(s[0] as nat - 0xe0, s[1] as nat - 0x80, s[2] as nat - 0x80);
      assert s[..3] == [s[0], s[1], s[2]];
    } else {
      c := FourBytes(s[0] as nat - 0xf0, s[1] as nat - 0x80, s[2] as nat - 0x80, s[3] as nat - 0x80);
      assert s[..4] == [s[0], s[1], s[2], s[3]];
    }
  }

  lemma OneByte(c: nat)
    requires c < 0x80
    ensures Scalar(c) && Encoded(c) == [c]
  {
  }

  /** And every encoding is a well-formed head. */
  lemma CharReads(c: nat, rest: bytes)
    requires Scalar(c)
    ensures CharSize(Encoded(c) + rest) == |Encoded(c)|
  {
    var e := Encoded(c);
    var s := e + rest;
    assert forall i :: 0 <= i < |e| ==> s[i] == e[i];
  }

  predicate Scalars(cs: seq<nat>) {
    forall i :: 0 <= i < |cs| ==> Scalar(cs[i])
  }

  function Spelled(cs: seq<nat>): bytes
    requires Scalars(cs)
  {
    if cs == [] then [] else Encoded(cs[0]) + Spelled(cs[1..])
  }

  lemma {:induction false} TextRead(s: bytes) returns (cs: seq<nat>)
    requires ValidUtf8(s)
    ensures Scalars(cs) && s == Spelled(cs)
    decreases |s|
  {
    hide CharSize, Encoded;
    if s == [] {
      cs := [];
    } else {
      var c := CharRead(s);
      var n := CharSize(s);
      var rest := TextRead(s[n..]);
      cs := [c] + rest;
      assert cs[1..] == rest && s == s[..n] + s[n..];
    }
  }

  /** Encoded characters are text; they are counted, and replaced by question marks outside ASCII. */
  lemma {:induction false} TextReads(cs: seq<nat>)
    requires Scalars(cs)
    ensures ValidUtf8(Spelled(cs)) && CharCount(Spelled(cs)) == |cs|
    ensures AsciiReplace(Spelled(cs)) == seq(|cs|, i requires 0 <= i < |cs| => if cs[i] < 0x80 then cs[i] else 0x3f)
  {
    hide CharSize, Encoded;
    if cs != [] {
      var rest := Spelled(cs[1..]);
      CharReads(cs[0], rest);
      TextReads(cs[1..]);
      HeadByte(cs[0]);
      assert Spelled(cs)[|Encoded(cs[0])|..] == rest && Spelled(cs)[0] == Encoded(cs[0])[0];
    }
  }

  lemma HeadByte(c: nat)
    requires Scalar(c)
    ensures (Encoded(c)[0] < 0x80 <==> c < 0x80) && (c < 0x80 ==> Encoded(c)[0] == c)
  {
  }

  /** Bytes are text exactly when they encode characters. */
  lemma Utf8Exactly(s: bytes)
    ensures ValidUtf8(s) <==> exists cs :: Scalars(cs) && s == Spelled(cs)
  {
    hide ValidUtf8, Spelled;
    if ValidUtf8(s) { var cs := TextRead(s); }
    forall cs | Scalars(cs) && s == Spelled(cs) ensures ValidUtf8(s) { TextReads(cs); }
  }

  // ---- portable names ----

  /** A part of a path that every file system takes. */
  predicate PortablePart(part: bytes, policy: NamePolicy) {
    && 1 <= |part| <= 255 && !policy.reserved(part)
    && (forall b :: b in part ==> b >= 0x20 && b != SLASH && b != 0x5c && b !in [0x3c, 0x3e, 0x3a, 0x22, 0x7c, 0x3f, 0x2a])
    && part[|part| - 1] != 0x2e && part[|part| - 1] != 0x20
  }

  /** The name is portable parts with slashes between them, with or without one behind, of at most
      512 characters and in normal form; `path` is the name without that slash. */
  ghost predicate PortableName(name: bytes, path: bytes, policy: NamePolicy)
    requires ValidUtf8(name)
  {
    && CharCount(name) <= 512 && policy.normal(path) && (name == path || name == path + [SLASH])
    && exists parts :: parts != [] && path == Join(parts, SLASH) && forall part :: part in parts ==> PortablePart(part, policy)
  }

  lemma PartExactly(part: bytes, policy: NamePolicy)
    requires SLASH !in part
    ensures ComponentOk(part, policy) <==> PortablePart(part, policy)
  {
    assert forall i :: 0 <= i < |part| ==> part[i] in part;
  }

  /** A name is safe exactly when it is portable, and is reduced to its path. */
  lemma SafeNameExactly(name: bytes, path: bytes, policy: NamePolicy)
    requires ValidUtf8(name)
    ensures SafeReleaseName(name, policy) == Some(path) <==> PortableName(name, path, policy)
  {
    hide ValidUtf8, CharCount, ComponentOk, PortablePart, Split, Join;
    if SafeReleaseName(name, policy) == Some(path) {
      SplitJoin(path, SLASH);
      var parts := Split(path, SLASH);
      forall part | part in parts ensures PortablePart(part, policy) {
        var i :| 0 <= i < |parts| && parts[i] == part;
        PartExactly(part, policy);
      }
      assert name == path || name == path + [SLASH];
    }
    if PortableName(name, path, policy) {
      var parts :| parts != [] && path == Join(parts, SLASH) && forall part :: part in parts ==> PortablePart(part, policy);
      forall i | 0 <= i < |parts| ensures SLASH !in parts[i] && parts[i] != [] && ComponentOk(parts[i], policy) {
        assert parts[i] in parts;
        PartHasNoSlash(parts[i], policy);
        PartExactly(parts[i], policy);
      }
      SplitOfJoin(parts, SLASH);
      JoinLast(parts, SLASH);
      assert name == path + [SLASH] ==> name[..|name| - 1] == path;
    }
  }

  lemma PartHasNoSlash(part: bytes, policy: NamePolicy)
    requires PortablePart(part, policy)
    ensures SLASH !in part && part != []
  {
  }
}
