/** Packed little-endian records (`struct` formats of 16- and 32-bit fields). */
module Struct {
  import opened Bytes

  /** Field widths in bytes. */
  type Format = seq<nat>

  predicate FormatOk(f: Format) {
    forall i :: 0 <= i < |f| ==> f[i] == 2 || f[i] == 4
  }

  function Limit(width: nat): nat {
    if width == 2 then 0x1_0000 else 0x1_0000_0000
  }

  /** The values that `struct.pack` takes without an error. */
  predicate Fits(f: Format, v: seq<nat>) {
    |v| == |f| && forall i :: 0 <= i < |f| ==> v[i] < Limit(f[i])
  }

  function Size(f: Format): nat {
    if f == [] then 0 else f[0] + Size(f[1..])
  }

  lemma {:induction false} SizeConcat(f: Format, g: Format)
    ensures Size(f + g) == Size(f) + Size(g)
  {
    if f == [] {
      assert f + g == g;
    } else {
      assert (f + g)[1..] == f[1..] + g;
      SizeConcat(f[1..], g);
    }
  }

  lemma {:induction false} SizeUniform(f: Format, width: nat)
    requires forall i :: 0 <= i < |f| ==> f[i] == width
    ensures Size(f) == width * |f|
  {
    if f != [] {
      SizeUniform(f[1..], width);
    }
  }

  function PackField(width: nat, value: nat): (s: bytes)
    requires width == 2 || width == 4
    ensures |s| == width
  {
    if width == 2 then LE16(value % 0x1_0000) else LE32(value % 0x1_0000_0000)
  }

  /** The packed record; callers first rule out values that do not fit. */
  function Pack(f: Format, v: seq<nat>): (s: bytes)
    requires FormatOk(f) && |v| == |f|
    ensures |s| == Size(f)
  {
    if f == [] then [] else PackField(f[0], v[0]) + Pack(f[1..], v[1..])
  }

  function Unpack(f: Format, s: bytes): (v: seq<nat>)
    requires FormatOk(f) && Size(f) <= |s|
    ensures Fits(f, v)
  {
    if f == [] then []
    else [if f[0] == 2 then U16(s, 0) else U32(s, 0)] + Unpack(f[1..], s[f[0]..])
  }

  /** Packing and unpacking are inverse. */
  lemma {:induction false} UnpackExact(f: Format, s: bytes, v: seq<nat>)
    requires FormatOk(f) && Size(f) <= |s| && Fits(f, v)
    ensures Unpack(f, s) == v <==> s[..Size(f)] == Pack(f, v)
  {
    if f == [] {
    } else {
      var w := f[0];
      var tail := s[w..];
      UnpackExact(f[1..], tail, v[1..]);
      FieldExact(s, w, v[0]);
      ConcatSplits(s[..Size(f)], w, PackField(w, v[0]), Pack(f[1..], v[1..]));
      HeadAndTail(s, w, Size(f));
      assert v == [v[0]] + v[1..];
    }
  }

  lemma HeadAndTail(s: bytes, w: nat, size: nat)
    requires w <= size <= |s|
    ensures s[..size][..w] == s[..w] && s[..size][w..] == s[w..][..size - w]
  {
  }

  lemma FieldExact(s: bytes, width: nat, value: nat)
    requires (width == 2 || width == 4) && width <= |s| && value < Limit(width)
    ensures (if width == 2 then U16(s, 0) else U32(s, 0)) == value <==> s[..width] == PackField(width, value)
  {
    hide U16, U32, LE16, LE32;
    assert s[0..width] == s[..width];
    if width == 2 {
      assert value % 0x1_0000 == value;
      U16Exact(s, 0, value);
    } else {
      assert value % 0x1_0000_0000 == value;
      U32Exact(s, 0, value);
    }
  }

  lemma UnpackOfConcat(f: Format, v: seq<nat>, rest: bytes)
    requires FormatOk(f) && Fits(f, v)
    ensures Size(f) <= |Pack(f, v) + rest| && Unpack(f, Pack(f, v) + rest) == v
  {
    var s := Pack(f, v) + rest;
    assert s[..Size(f)] == Pack(f, v);
    UnpackExact(f, s, v);
  }
}
