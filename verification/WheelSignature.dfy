/** A wheel within every budget whose end record holds its own signature, so that the canonical
    container is refused: the local records total 0x06054b50 bytes. */
module WheelSignature {
  import opened Bytes
  import opened Struct
  import opened Sums
  import opened ReleaseContract
  import opened Wheel
  import opened WheelRecords
  import opened WheelForm

  const SIGNATURE_VALUE: nat := 0x0605_4b50
  const LAST_SIZE: nat := 346_743

  function FullMember(k: nat): WheelEntry
    requires k < 6
  {
    WheelEntry([0x61 + k], Zeros(MAX_MEMBER_BYTES))
  }

  /** Six members of the largest size and a smaller one, named a to g. */
  function LargeWheel(): (entries: seq<WheelEntry>)
    ensures |entries| == 7 && forall i :: 0 <= i < 7 ==> |entries[i].name| == 1
  {
    seq(6, k requires 0 <= k < 6 => FullMember(k)) + [WheelEntry([0x67], Zeros(LAST_SIZE))]
  }

  lemma {:induction false} SameSizes(entries: seq<WheelEntry>, size: nat)
    requires forall i :: 0 <= i < |entries| ==> |entries[i].payload| == size
    ensures SumOf(entries, PayloadSize) == |entries| * size
  {
    if entries != [] {
      SameSizes(entries[1..], size);
      assert |entries| * size == size + |entries[1..]| * size;
    }
  }

  lemma {:induction false} LocalsExactly(entries: seq<WheelEntry>, stamp: Stamp)
    requires forall i :: 0 <= i < |entries| ==> |entries[i].name| == 1
    ensures |LocalImages(entries, stamp)| == 31 * |entries| + SumOf(entries, PayloadSize)
    decreases |entries|
  {
    hide LocalImage;
    if entries != [] {
      LocalLength(entries[0], stamp);
      LocalsExactly(entries[1..], stamp);
    }
  }

  lemma {:induction false} CentralsExactly(entries: seq<WheelEntry>, stamp: Stamp, offset: nat)
    requires forall i :: 0 <= i < |entries| ==> |entries[i].name| == 1
    ensures |CentralImages(entries, stamp, offset)| == 47 * |entries|
    decreases |entries|
  {
    hide LocalImage, CentralImage;
    if entries != [] {
      CentralImageLength(entries[0], stamp, offset);
      CentralsExactly(entries[1..], stamp, offset + |LocalImage(entries[0], stamp)|);
    }
  }

  lemma {:induction false} OneByteNamesFit(entries: seq<WheelEntry>, stamp: Stamp, offset: nat)
    requires StampOk(stamp) && offset + |LocalImages(entries, stamp)| < 0x1_0000_0000
    requires forall i :: 0 <= i < |entries| ==> |entries[i].name| == 1
    ensures RecordsFit(entries, stamp, offset)
    decreases |entries|
  {
    hide LocalImage, Fits, LocalValues, CentralValues;
    if entries != [] {
      LocalLength(entries[0], stamp);
      RecordFits(entries[0], stamp, offset);
      OneByteNamesFit(entries[1..], stamp, offset + |LocalImage(entries[0], stamp)|);
    }
  }

  lemma LargeSizes()
    ensures SumOf(LargeWheel(), PayloadSize) == 6 * MAX_MEMBER_BYTES + LAST_SIZE
    ensures SizesOk(LargeWheel())
  {
    hide SumOf;
    var six := seq(6, k requires 0 <= k < 6 => FullMember(k));
    SameSizes(six, MAX_MEMBER_BYTES);
    SumExtend(six, WheelEntry([0x67], Zeros(LAST_SIZE)), PayloadSize);
  }

  // ---- the end record ----

  lemma {:induction false} PackSplits(f: Format, v: seq<nat>, k: nat)
    requires FormatOk(f) && |v| == |f| && k <= |f|
    ensures Pack(f, v) == Pack(f[..k], v[..k]) + Pack(f[k..], v[k..])
  {
    hide PackField;
    if k == 0 {
      assert f[0..] == f && v[0..] == v;
    } else {
      var g, w := f[1..], v[1..];
      PackSplits(g, w, k - 1);
      assert f[..k][1..] == g[..k - 1] && v[..k][1..] == w[..k - 1];
      assert g[k - 1..] == f[k..] && w[k - 1..] == v[k..];
      assert Pack(f[..k], v[..k]) == PackField(f[0], v[0]) + Pack(g[..k - 1], w[..k - 1]);
      assert Pack(f, v) == PackField(f[0], v[0]) + Pack(g, w);
    }
  }

  /** The directory offset stands in bytes 16 to 19 of the end record. */
  lemma OffsetInEnd(members: nat, size: nat, offset: nat)
    requires offset < 0x1_0000_0000
    ensures EndImage(members, size, offset)[16..20] == LE32(offset)
  {
    hide Size, Pack, PackField, LE32;
    FormatSizes();
    var v := EndValues(members, size, offset);
    var front, back := Pack(END_FORMAT[..5], v[..5]), Pack(END_FORMAT[5..], v[5..]);
    PackSplits(END_FORMAT, v, 5);
    FrontSize();
    OffsetField(v[5..]);
    assert EndImage(members, size, offset) == END_SIGNATURE + (front + back);
  }

  lemma FrontSize()
    ensures Size(END_FORMAT[..5]) == 12
  {
    hide Size;
    var a: Format, b: Format := [2, 2, 2, 2], [4];
    SizeUniform(a, 2);
    SizeUniform(b, 4);
    SizeConcat(a, b);
    assert END_FORMAT[..5] == a + b;
  }

  lemma OffsetField(v: seq<nat>)
    requires |v| == 2 && v[0] < 0x1_0000_0000
    ensures |Pack(END_FORMAT[5..], v)| >= 4 && Pack(END_FORMAT[5..], v)[..4] == LE32(v[0])
  {
    hide LE32, LE16;
    assert END_FORMAT[5..][0] == 4;
    assert v[0] % 0x1_0000_0000 == v[0];
    assert Pack(END_FORMAT[5..], v) == PackField(4, v[0]) + Pack(END_FORMAT[5..][1..], v[1..]);
  }

  lemma SignatureSpelled()
    ensures LE32(SIGNATURE_VALUE) == END_SIGNATURE
  {
  }

  /** Every field of this wheel fits and every budget holds, and yet its end record is not found. */
  lemma EndSignatureRecurs(stamp: Stamp)
    requires StampOk(stamp)
    ensures SizesOk(LargeWheel()) && WheelFits(LargeWheel(), stamp) && |WheelImage(LargeWheel(), stamp)| <= MAX_ARTIFACT_BYTES
    ensures !EndRecordClean(EndOf(LargeWheel(), stamp)) && DirectoryContract(WheelImage(LargeWheel(), stamp)).Err?
  {
    hide LocalImages, CentralImages, RecordsFit, SumOf, LargeWheel, LE32, DirectoryContract, EndImage, Fits;
    var entries := LargeWheel();
    LargeSizes();
    LocalsExactly(entries, stamp);
    CentralsExactly(entries, stamp, 0);
    OneByteNamesFit(entries, stamp, 0);
    EndFits(7, |CentralImages(entries, stamp, 0)|, |LocalImages(entries, stamp)|);
    OffsetInEnd(7, |CentralImages(entries, stamp, 0)|, |LocalImages(entries, stamp)|);
    SignatureSpelled();
    assert OccursAt(EndOf(entries, stamp), END_SIGNATURE, 16);
    DirectoryReads(entries, stamp);
  }
}
