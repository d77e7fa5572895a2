/** Byte strings, little-endian integers, zero padding, and fixed-width octal and
    decimal text: the vocabulary of the container formats. */
module Bytes {
  type byte = b: int | 0 <= b < 256
  type bytes = seq<byte>

  const SLASH: byte := 0x2f
  const NEWLINE: byte := 0x0a
  const SPACE: byte := 0x20
  const EQUALS: byte := 0x3d

  predicate Ascii(s: bytes) {
    forall i :: 0 <= i < |s| ==> s[i] < 128
  }

  function Zeros(n: nat): (z: bytes)
    ensures |z| == n
    ensures forall i :: 0 <= i < n ==> z[i] == 0
  {
    seq(n, i => 0)
  }

  predicate AllZero(s: bytes) {
    forall i :: 0 <= i < |s| ==> s[i] == 0
  }

  lemma AllZeroIsZeros(s: bytes)
    ensures AllZero(s) <==> s == Zeros(|s|)
  {
  }

  /** The least index at or after `from` holding `b`, or the length when there is none. */
  function Find(s: bytes, b: byte, from: nat): (at: nat)
    requires from <= |s|
    ensures from <= at <= |s|
    ensures at < |s| ==> s[at] == b
    ensures forall i :: from <= i < at ==> s[i] != b
    decreases |s| - from
  {
    if from == |s| || s[from] == b then from else Find(s, b, from + 1)
  }

  lemma Reslice(s: bytes, a: nat, b: nat, i: nat, j: nat)
    requires a <= b <= |s| && i <= j <= b - a
    ensures s[a..b][i..j] == s[a + i..a + j]
    ensures s[a..b][i..] == s[a + i..b]
  {
    var t := s[a..b];
    assert forall k :: 0 <= k < b - a ==> t[k] == s[a + k];
    assert t[i..j] == s[a + i..a + j];
  }

  lemma ConcatSplits(s: bytes, cut: nat, a: bytes, b: bytes)
    requires cut <= |s| && (|a| == cut || |b| == |s| - cut)
    ensures s == a + b <==> s[..cut] == a && s[cut..] == b
  {
    assert s == s[..cut] + s[cut..];
    if s == a + b {
      assert |a| == cut;
    }
  }

  // ---- little-endian integers ----

  function LE16(n: nat): (s: bytes)
    requires n < 0x1_0000
    ensures |s| == 2
  {
    [n % 256, n / 256]
  }

  function LE32(n: nat): (s: bytes)
    requires n < 0x1_0000_0000
    ensures |s| == 4
  {
    LE16(n % 0x1_0000) + LE16(n / 0x1_0000)
  }

  function U16(s: bytes, at: nat): (n: nat)
    requires at + 2 <= |s|
    ensures n < 0x1_0000
  {
    s[at] as int + 256 * s[at + 1] as int
  }

  function U32(s: bytes, at: nat): (n: nat)
    requires at + 4 <= |s|
    ensures n < 0x1_0000_0000
  {
    U16(s, at) + 0x1_0000 * U16(s, at + 2)
  }

  /** Reading two bytes back is exact in both directions. */
  lemma U16Exact(s: bytes, at: nat, n: nat)
    requires at + 2 <= |s| && n < 0x1_0000
    ensures U16(s, at) == n <==> s[at..at + 2] == LE16(n)
  {
    var t := s[at..at + 2];
    assert t[0] == s[at] && t[1] == s[at + 1];
  }

  lemma U32Exact(s: bytes, at: nat, n: nat)
    requires at + 4 <= |s| && n < 0x1_0000_0000
    ensures U32(s, at) == n <==> s[at..at + 4] == LE32(n)
  {
    U16Exact(s, at, n % 0x1_0000);
    U16Exact(s, at + 2, n / 0x1_0000);
    assert s[at..at + 4] == s[at..at + 2] + s[at + 2..at + 4];
    var t := s[at..at + 4];
    if t == LE32(n) {
      assert t[..2] == LE16(n % 0x1_0000) && t[2..] == LE16(n / 0x1_0000);
    }
  }

  // ---- sums ----

  function Sum(s: bytes): nat {
    if s == [] then 0 else s[0] + Sum(s[1..])
  }

  lemma {:induction false} SumConcat(a: bytes, b: bytes)
    ensures Sum(a + b) == Sum(a) + Sum(b)
  {
    if a == [] {
      assert a + b == b;
    } else {
      assert (a + b)[1..] == a[1..] + b;
      SumConcat(a[1..], b);
    }
  }

  lemma {:induction false} SumBound(s: bytes)
    ensures Sum(s) <= 255 * |s|
  {
    if s != [] {
      SumBound(s[1..]);
    }
  }

  // ---- fixed-width octal text ----

  function Pow(base: nat, k: nat): nat {
    if k == 0 then 1 else base * Pow(base, k - 1)
  }

  lemma {:induction false} PowPositive(base: nat, k: nat)
    requires base >= 1
    ensures Pow(base, k) >= 1
  {
    if k > 0 {
      PowPositive(base, k - 1);
      assert base * Pow(base, k - 1) >= 1 * 1 by { MulMono(base, Pow(base, k - 1)); }
    }
  }

  lemma MulMono(a: nat, b: nat)
    requires a >= 1 && b >= 1
    ensures a * b >= 1
  {
  }

  /** The low `digits` octal digits of `v`. */
  function Octal(v: nat, digits: nat): (s: bytes)
    ensures |s| == digits
  {
    if digits == 0 then [] else Octal(v / 8, digits - 1) + [0x30 + v % 8]
  }

  predicate AllOctal(s: bytes) {
    forall i :: 0 <= i < |s| ==> 0x30 <= s[i] <= 0x37
  }

  function OctalValue(s: bytes): nat
    requires AllOctal(s)
  {
    if s == [] then 0 else 8 * OctalValue(s[..|s| - 1]) + (s[|s| - 1] - 0x30)
  }

  lemma {:induction false} OctalRoundTrip(v: nat, digits: nat)
    requires v < Pow(8, digits)
    ensures AllOctal(Octal(v, digits)) && OctalValue(Octal(v, digits)) == v
  {
    if digits > 0 {
      OctalRoundTrip(v / 8, digits - 1);
      assert Octal(v, digits)[..digits - 1] == Octal(v / 8, digits - 1);
    }
  }

  lemma {:induction false} OctalSpelling(s: bytes)
    requires AllOctal(s)
    ensures OctalValue(s) < Pow(8, |s|) && Octal(OctalValue(s), |s|) == s
  {
    if s != [] {
      var t := s[..|s| - 1];
      OctalSpelling(t);
      assert s == t + [s[|s| - 1]];
    }
  }

  // ---- decimal text ----

  /** `n` in decimal with no leading zero. */
  function Dec(n: nat): (s: bytes)
    ensures |s| >= 1
  {
    if n < 10 then [0x30 + n] else Dec(n / 10) + [0x30 + n % 10]
  }

  predicate AllDigits(s: bytes) {
    forall i :: 0 <= i < |s| ==> 0x30 <= s[i] <= 0x39
  }

  function DecValue(s: bytes): nat
    requires AllDigits(s)
  {
    if s == [] then 0 else 10 * DecValue(s[..|s| - 1]) + (s[|s| - 1] - 0x30)
  }

  /** Digits without a superfluous leading zero. */
  predicate CanonicalDec(s: bytes) {
    s != [] && AllDigits(s) && (s[0] == 0x30 ==> |s| == 1)
  }

  lemma {:induction false} DecRoundTrip(n: nat)
    ensures CanonicalDec(Dec(n)) && DecValue(Dec(n)) == n
    ensures Dec(n)[0] == 0x30 <==> n == 0
  {
    if n >= 10 {
      DecRoundTrip(n / 10);
      assert Dec(n)[..|Dec(n)| - 1] == Dec(n / 10);
    } else {
      var s := Dec(n);
      assert s[..|s| - 1] == [];
    }
  }

  lemma {:induction false} DecSpelling(s: bytes)
    requires CanonicalDec(s)
    ensures Dec(DecValue(s)) == s
  {
    var t := s[..|s| - 1];
    assert s == t + [s[|s| - 1]];
    if t != [] {
      DecSpelling(t);
      DecPositive(t);
    }
  }

  lemma {:induction false} DecPositive(s: bytes)
    requires AllDigits(s) && s != [] && s[0] != 0x30
    ensures DecValue(s) > 0
  {
    var t := s[..|s| - 1];
    if t != [] {
      DecPositive(t);
    }
  }

  // ---- order ----

  /** Lexicographic order of byte strings; on UTF-8 text it is the order of code points. */
  predicate LexLess(a: bytes, b: bytes) {
    b != [] && (a == [] || a[0] < b[0] || (a[0] == b[0] && LexLess(a[1..], b[1..])))
  }

  lemma {:induction false} LexTrichotomy(a: bytes, b: bytes)
    ensures LexLess(a, b) || a == b || LexLess(b, a)
    ensures !(LexLess(a, b) && LexLess(b, a))
    ensures !LexLess(a, a)
  {
    if a != [] && b != [] {
      LexTrichotomy(a[1..], b[1..]);
      LexTrichotomy(a[1..], a[1..]);
      assert a == [a[0]] + a[1..] && b == [b[0]] + b[1..];
    } else if a != [] {
      LexTrichotomy(a[1..], a[1..]);
    }
  }

  lemma {:induction false} LexTransitive(a: bytes, b: bytes, c: bytes)
    requires LexLess(a, b) && LexLess(b, c)
    ensures LexLess(a, c)
  {
    if a != [] && a[0] == b[0] && b[0] == c[0] {
      LexTransitive(a[1..], b[1..], c[1..]);
    }
  }

  /** The first byte in which the two differ is smaller in `a`, or `a` ends there. */
  predicate Precedes(a: bytes, b: bytes) {
    exists k :: 0 <= k <= |a| && k < |b| && a[..k] == b[..k] && (k == |a| || a[k] < b[k])
  }

  lemma HeadsOrdered(a: bytes, b: bytes)
    requires a != [] && b != [] && Precedes(a, b)
    ensures a[0] <= b[0]
  {
    var k :| 0 <= k <= |a| && k < |b| && a[..k] == b[..k] && (k == |a| || a[k] < b[k]);
    if k > 0 { assert a[0] == a[..k][0] == b[..k][0] == b[0]; }
  }

  lemma {:induction false} LexIsPrecedes(a: bytes, b: bytes)
    ensures LexLess(a, b) <==> Precedes(a, b)
  {
    if b != [] && a != [] && a[0] == b[0] {
      LexIsPrecedes(a[1..], b[1..]);
      if k :| 0 <= k <= |a[1..]| && k < |b[1..]| && a[1..][..k] == b[1..][..k] && (k == |a[1..]| || a[1..][k] < b[1..][k]) {
        assert a[..k + 1] == [a[0]] + a[1..][..k] && b[..k + 1] == [b[0]] + b[1..][..k];
      }
      if k :| 0 <= k <= |a| && k < |b| && a[..k] == b[..k] && (k == |a| || a[k] < b[k]) {
        assert k > 0;
        assert a[1..][..k - 1] == a[..k][1..] && b[1..][..k - 1] == b[..k][1..];
      }
    } else if b != [] {
      assert a[..0] == b[..0];
      if a != [] && Precedes(a, b) { HeadsOrdered(a, b); }
    }
  }
}
