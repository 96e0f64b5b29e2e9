/** The Octatrack `.ot` slice-metadata file: a fixed 0x340-byte image with
    big-endian fields, a 64-record slice table and a 16-bit checksum in the
    last two bytes (audio/ot_writer.py).

    The image is specified byte by byte (`LayoutByte`): which field covers a
    position and which byte of that field sits there. `Decode` reads the
    fields back and refuses anything that is not such an image; the lemmas at
    the end prove that the two are inverse to each other. */
module OtLayout {
  import opened Wrappers

  type byte = b: int | 0 <= b < 0x100

  // Offsets and sizes of the image, as audio/ot_writer.py writes them.
  const OtSize: nat := 0x340
  const TempoOffset: nat := 0x17
  const ConstOffset: nat := 0x2B
  const ConstValue: nat := 0x30
  const TableOffset: nat := 0x3A
  const RecordSize: nat := 12
  const CountOffset: nat := 0x33A
  const ChecksumOffset: nat := 0x33E

  /** Records that fit between the table start and the end of the image. */
  const MaxSlices: nat := 64

  const FormTag: seq<byte> := [0x46, 0x4F, 0x52, 0x4D]  // "FORM"
  const Dps1Tag: seq<byte> := [0x44, 0x50, 0x53, 0x31]  // "DPS1"
  const SmpaTag: seq<byte> := [0x53, 0x4D, 0x50, 0x41]  // "SMPA"

  predicate IsU16(v: int) { 0 <= v < 0x1_0000 }
  predicate IsU32(v: int) { 0 <= v < 0x1_0000_0000 }

  /** One slice: start, end and loop point, as Python integers. */
  datatype Slice = Slice(start: int, end: int, loop: int)

  /** What `struct.pack('>III', ...)` accepts. */
  predicate ValidSlice(s: Slice) {
    IsU32(s.start) && IsU32(s.end) && IsU32(s.loop)
  }

  predicate ValidTable(t: seq<Slice>) {
    |t| <= MaxSlices && forall i :: 0 <= i < |t| ==> ValidSlice(t[i])
  }

  /** Whether the 12-byte record of slice `i` lies inside the image. */
  predicate RecordFits(i: nat) {
    TableOffset + 12 * (i + 1) <= OtSize
  }

  // ---------------------------------------------------------------------
  // Big-endian words

  /** `struct.pack('>H', v)` */
  function BE16(v: int): (r: seq<byte>)
    requires IsU16(v)
    ensures |r| == 2
  {
    [v / 0x100, v % 0x100]
  }

  /** `struct.pack('>I', v)` */
  function BE32(v: int): (r: seq<byte>)
    requires IsU32(v)
    ensures |r| == 4
  {
    [v / 0x100_0000, (v / 0x1_0000) % 0x100, (v / 0x100) % 0x100, v % 0x100]
  }

  /** `struct.unpack_from('>H', s, off)` */
  function U16At(s: seq<byte>, off: nat): (v: int)
    requires off + 2 <= |s|
    ensures IsU16(v)
  {
    (s[off] as int) * 0x100 + s[off + 1]
  }

  /** `struct.unpack_from('>I', s, off)` */
  function U32At(s: seq<byte>, off: nat): (v: int)
    requires off + 4 <= |s|
    ensures IsU32(v)
  {
    (s[off] as int) * 0x100_0000 + (s[off + 1] as int) * 0x1_0000 + (s[off + 2] as int) * 0x100 + s[off + 3]
  }

  /** The 12 bytes of one slice record. */
  function Record(s: Slice): (r: seq<byte>)
    requires ValidSlice(s)
    ensures |r| == RecordSize
  {
    BE32(s.start) + BE32(s.end) + BE32(s.loop)
  }

  // ---------------------------------------------------------------------
  // The image

  /** Byte `k` (below the checksum) of an image with tempo word `tempo`,
      count field `count` and slice records `t`. `count` is separate from
      `|t|` only so that a partly written table can be described. */
  function LayoutByte(tempo: int, count: int, t: seq<Slice>, k: int): (b: byte)
    requires IsU32(tempo) && IsU32(count) && ValidTable(t)
    requires 0 <= k < ChecksumOffset
    ensures Unused(k, |t|) ==> b == 0
  {
    if k < 4 then FormTag[k]
    else if 8 <= k < 12 then Dps1Tag[k - 8]
    else if 12 <= k < 16 then SmpaTag[k - 12]
    else if TempoOffset <= k < TempoOffset + 4 then BE32(tempo)[k - TempoOffset]
    else if ConstOffset <= k < ConstOffset + 2 then BE16(ConstValue)[k - ConstOffset]
    else if TableOffset <= k < TableOffset + 12 * |t| then
      Record(t[(k - TableOffset) / 12])[(k - TableOffset) % 12]
    else if CountOffset <= k then BE32(count)[k - CountOffset]
    else 0
  }

  /** Positions below the count field that no field of a `count`-slice image covers. */
  predicate Unused(k: int, count: int) {
    0 <= k < CountOffset &&
    !(k < 4 || 8 <= k < 16 ||
      TempoOffset <= k < TempoOffset + 4 ||
      ConstOffset <= k < ConstOffset + 2 ||
      TableOffset <= k < TableOffset + 12 * count)
  }

  /** `sum(...)` of a byte sequence. */
  function Sum(s: seq<byte>): (r: int)
    ensures 0 <= r <= 0xFF * |s|
  {
    if s == [] then 0 else s[0] + Sum(s[1..])
  }

  /** `(0xFFFF - sum(s)) & 0xFFFF`; Python's `&` with a non-negative mask is
      Dafny's `%`, also for a negative left operand. */
  function Checksum(s: seq<byte>): (c: int)
    ensures IsU16(c)
  {
    (0xFFFF - Sum(s)) % 0x1_0000
  }

  /** The bytes before the checksum. */
  function Body(tempo: int, t: seq<Slice>): (b: seq<byte>)
    requires IsU32(tempo) && ValidTable(t)
    ensures |b| == ChecksumOffset
    ensures forall k :: Unused(k, |t|) ==> b[k] == 0
  {
    seq(ChecksumOffset, k requires 0 <= k < ChecksumOffset => LayoutByte(tempo, |t|, t, k))
  }

  /** The whole file for tempo word `tempo` and slice table `t`. */
  function Image(tempo: int, t: seq<Slice>): (img: seq<byte>)
    requires IsU32(tempo) && ValidTable(t)
    ensures |img| == OtSize
  {
    var b := Body(tempo, t);
    b + BE16(Checksum(b))
  }

  // ---------------------------------------------------------------------
  // Encoding with the errors `struct.pack_into` raises

  datatype WriteError =
    | TempoOutOfRange(word: int)      // bpm*24 is not an unsigned 32-bit value
    | CountOutOfRange(count: int)     // len(slices) is not an unsigned 32-bit value
    | RecordOutsideImage(index: nat)  // slice `index` would run past byte 0x340
    | SliceValueOutOfRange(index: nat) // a value of slice `index` is not an unsigned 32-bit value

  /** Whether slice `i` is written without raising: bounds are checked before values. */
  predicate Writable(t: seq<Slice>, i: nat)
    requires i < |t|
  {
    RecordFits(i) && ValidSlice(t[i])
  }

  /** The first slice at or after `from` whose record cannot be written, or `|t|`. */
  function FirstBadSlice(t: seq<Slice>, from: nat): (r: nat)
    requires from <= |t|
    ensures from <= r <= |t|
    ensures forall i :: from <= i < r ==> Writable(t, i)
    ensures r < |t| ==> !Writable(t, r)
    decreases |t| - from
  {
    if from == |t| || !Writable(t, from) then from else FirstBadSlice(t, from + 1)
  }

  /** What `write(item, bpm, slices)` puts in the file, or the error it raises. */
  function Encode(bpm: int, slices: Option<seq<Slice>>): (r: Result<seq<byte>, WriteError>)
    ensures r.Success? ==> IsU32(bpm * 24) && ValidTable(slices.GetOr([])) && |r.value| == OtSize
    ensures r.Failure? && r.error.RecordOutsideImage? ==> r.error.index == MaxSlices
    ensures r.Failure? && r.error.SliceValueOutOfRange? ==>
      r.error.index < MaxSlices && r.error.index < |slices.GetOr([])| &&
      !ValidSlice(slices.GetOr([])[r.error.index])
  {
    var t := slices.GetOr([]);
    var tempo := bpm * 24;
    if !IsU32(tempo) then Failure(TempoOutOfRange(tempo))
    else if !IsU32(|t|) then Failure(CountOutOfRange(|t|))
    else
      var bad := FirstBadSlice(t, 0);
      if bad < |t| then
        RecordFitsBelowMax(bad);
        if RecordFits(bad) then Failure(SliceValueOutOfRange(bad))
        else
          assert bad > 0 && Writable(t, bad - 1);
          RecordFitsBelowMax(bad - 1);
          Failure(RecordOutsideImage(bad))
      else
        assert ValidTable(t) by { RecordsFitBelow(t); }
        Success(Image(tempo, t))
  }

  /** The record of slice `i` fits exactly when `i < 64`; record 63 ends at the count field. */
  lemma RecordFitsBelowMax(i: nat)
    ensures RecordFits(i) <==> i < MaxSlices
    ensures RecordFits(i) ==> TableOffset + 12 * (i + 1) <= CountOffset
  {
  }

  lemma RecordsFitBelow(t: seq<Slice>)
    requires forall i :: 0 <= i < |t| ==> Writable(t, i)
    ensures ValidTable(t)
  {
    if |t| > 0 {
      assert Writable(t, |t| - 1);
      RecordFitsBelowMax(|t| - 1);
    }
    forall i | 0 <= i < |t| ensures ValidSlice(t[i]) {
      assert Writable(t, i);
    }
  }

  // ---------------------------------------------------------------------
  // Decoding

  /** The fields an image carries: the tempo word and the slice table (whose
      length is the count field). */
  datatype OtFields = OtFields(tempo: int, slices: seq<Slice>)

  function SliceAt(img: seq<byte>, i: nat): Slice
    requires TableOffset + 12 * (i + 1) <= |img|
  {
    var base := TableOffset + 12 * i;
    Slice(U32At(img, base), U32At(img, base + 4), U32At(img, base + 8))
  }

  /** What a reader accepts: the tags, the constant, at most 64 slices,
      zero in every unused byte and a matching checksum. */
  predicate WellFormed(img: seq<byte>) {
    |img| == OtSize &&
    img[..4] == FormTag && img[8..12] == Dps1Tag && img[12..16] == SmpaTag &&
    U16At(img, ConstOffset) == ConstValue &&
    U32At(img, CountOffset) <= MaxSlices &&
    (forall k | 0 <= k < CountOffset && Unused(k, U32At(img, CountOffset)) :: img[k] == 0) &&
    U16At(img, ChecksumOffset) == Checksum(img[..ChecksumOffset])
  }

  /** Reads an image back; `None` unless it is well formed. */
  function Decode(img: seq<byte>): Option<OtFields>
  {
    if WellFormed(img) then
      var count := U32At(img, CountOffset);
      RecordFitsBelowMax(count);
      Some(OtFields(U32At(img, TempoOffset), seq(count, i requires 0 <= i < count => SliceAt(img, i))))
    else None
  }

  // ---------------------------------------------------------------------
  // Big-endian words read back

  lemma Split8(q: int, r: int)
    requires 0 <= r < 0x100
    ensures (q * 0x100 + r) / 0x100 == q && (q * 0x100 + r) % 0x100 == r
  {
  }

  lemma Split16(q: int, r: int)
    requires 0 <= r < 0x1_0000
    ensures (q * 0x1_0000 + r) / 0x1_0000 == q
  {
  }

  lemma Split24(q: int, r: int)
    requires 0 <= r < 0x100_0000
    ensures (q * 0x100_0000 + r) / 0x100_0000 == q
  {
  }

  /** Packing a word and unpacking it gives the word back. */
  lemma BE16RoundTrip(v: int)
    requires IsU16(v)
    ensures U16At(BE16(v), 0) == v
  {
  }

  lemma BE32RoundTrip(v: int)
    requires IsU32(v)
    ensures U32At(BE32(v), 0) == v
  {
  }

  /** Unpacking two bytes and packing the word gives the bytes back. */
  lemma U16AtBytes(s: seq<byte>, off: nat)
    requires off + 2 <= |s|
    ensures BE16(U16At(s, off)) == s[off..off + 2]
  {
    Split8(s[off], s[off + 1]);
  }

  /** Unpacking four bytes and packing the word gives the bytes back. */
  lemma U32AtBytes(s: seq<byte>, off: nat)
    requires off + 4 <= |s|
    ensures BE32(U32At(s, off)) == s[off..off + 4]
  {
    var a, b, c, d: int := s[off], s[off + 1], s[off + 2], s[off + 3];
    var v := U32At(s, off);
    assert v == a * 0x100_0000 + (b * 0x1_0000 + c * 0x100 + d);
    Split24(a, b * 0x1_0000 + c * 0x100 + d);
    assert v == (a * 0x100 + b) * 0x1_0000 + (c * 0x100 + d);
    Split16(a * 0x100 + b, c * 0x100 + d);
    Split8(a, b);
    assert v == (a * 0x1_0000 + b * 0x100 + c) * 0x100 + d;
    Split8(a * 0x1_0000 + b * 0x100 + c, d);
    Split8(a * 0x100 + b, c);
  }

  // ---------------------------------------------------------------------
  // The fields of an image

  /** Byte `r` of record `i` sits at `0x3A + 12*i + r`. */
  lemma TablePosition(i: nat, r: nat)
    requires r < RecordSize
    ensures (12 * i + r) / 12 == i && (12 * i + r) % 12 == r
  {
  }

  /** "FORM" at 0, four zero bytes, "DPS1" at 8 and "SMPA" at 12. */
  lemma ImageTags(tempo: int, t: seq<Slice>)
    requires IsU32(tempo) && ValidTable(t)
    ensures Image(tempo, t)[..4] == FormTag
    ensures Image(tempo, t)[4..8] == [0, 0, 0, 0]
    ensures Image(tempo, t)[8..12] == Dps1Tag
    ensures Image(tempo, t)[12..16] == SmpaTag
  {
    var img := Image(tempo, t);
    assert forall k :: 0 <= k < 16 ==> img[k] == LayoutByte(tempo, |t|, t, k);
  }

  /** The tempo word reads back from 0x17. */
  lemma ImageTempo(tempo: int, t: seq<Slice>)
    requires IsU32(tempo) && ValidTable(t)
    ensures U32At(Image(tempo, t), TempoOffset) == tempo
  {
    var img := Image(tempo, t);
    assert img[TempoOffset..TempoOffset + 4] == BE32(tempo) by {
      forall j | 0 <= j < 4 ensures img[TempoOffset + j] == BE32(tempo)[j] {
        assert img[TempoOffset + j] == LayoutByte(tempo, |t|, t, TempoOffset + j);
      }
    }
    BE32RoundTrip(tempo);
  }

  /** Bytes 0x2B and 0x2C hold the 16-bit constant 0x0030. */
  lemma ImageConstant(tempo: int, t: seq<Slice>)
    requires IsU32(tempo) && ValidTable(t)
    ensures Image(tempo, t)[ConstOffset..ConstOffset + 2] == [0x00, 0x30]
    ensures U16At(Image(tempo, t), ConstOffset) == ConstValue
  {
    var img := Image(tempo, t);
    assert img[ConstOffset] == LayoutByte(tempo, |t|, t, ConstOffset);
    assert img[ConstOffset + 1] == LayoutByte(tempo, |t|, t, ConstOffset + 1);
  }

  /** The slice count reads back from 0x33A. */
  lemma ImageCount(tempo: int, t: seq<Slice>)
    requires IsU32(tempo) && ValidTable(t)
    ensures U32At(Image(tempo, t), CountOffset) == |t|
  {
    var img := Image(tempo, t);
    assert img[CountOffset..CountOffset + 4] == BE32(|t|) by {
      forall j | 0 <= j < 4 ensures img[CountOffset + j] == BE32(|t|)[j] {
        assert img[CountOffset + j] == LayoutByte(tempo, |t|, t, CountOffset + j);
      }
    }
    BE32RoundTrip(|t|);
  }

  /** Unpacking where a word was packed gives the word. */
  lemma U32AtPacked(s: seq<byte>, off: nat, v: int)
    requires IsU32(v) && off + 4 <= |s| && s[off..off + 4] == BE32(v)
    ensures U32At(s, off) == v
  {
    assert s[off] == BE32(v)[0] && s[off + 1] == BE32(v)[1];
    assert s[off + 2] == BE32(v)[2] && s[off + 3] == BE32(v)[3];
    BE32RoundTrip(v);
  }

  lemma ImageRecord(tempo: int, t: seq<Slice>, i: nat)
    requires IsU32(tempo) && ValidTable(t) && i < |t|
    ensures TableOffset + 12 * (i + 1) <= CountOffset
    ensures Image(tempo, t)[TableOffset + 12 * i..TableOffset + 12 * (i + 1)] == Record(t[i])
  {
    var img := Image(tempo, t);
    var base := TableOffset + 12 * i;
    forall r | 0 <= r < 12 ensures img[base + r] == Record(t[i])[r] {
      TablePosition(i, r);
      assert img[base + r] == LayoutByte(tempo, |t|, t, base + r);
    }
  }

  /** Record `i` holds slice `i`'s start, end and loop point at 0x3A + 12*i, +4 and +8. */
  lemma ImageSlice(tempo: int, t: seq<Slice>, i: nat)
    requires IsU32(tempo) && ValidTable(t) && i < |t|
    ensures TableOffset + 12 * (i + 1) <= CountOffset
    ensures SliceAt(Image(tempo, t), i) == t[i]
  {
    var img := Image(tempo, t);
    var base := TableOffset + 12 * i;
    ImageRecord(tempo, t, i);
    var rec := img[base..base + 12];
    assert img[base..base + 4] == rec[..4] == BE32(t[i].start);
    assert img[base + 4..base + 8] == rec[4..8] == BE32(t[i].end);
    assert img[base + 8..base + 12] == rec[8..] == BE32(t[i].loop);
    U32AtPacked(img, base, t[i].start);
    U32AtPacked(img, base + 4, t[i].end);
    U32AtPacked(img, base + 8, t[i].loop);
  }

  /** The last two bytes are the checksum of all bytes before them, and the
      16-bit sum of those bytes plus the checksum is 0xFFFF. */
  lemma ImageChecksum(tempo: int, t: seq<Slice>)
    requires IsU32(tempo) && ValidTable(t)
    ensures U16At(Image(tempo, t), ChecksumOffset) == Checksum(Image(tempo, t)[..ChecksumOffset])
    ensures (Sum(Image(tempo, t)[..ChecksumOffset]) + U16At(Image(tempo, t), ChecksumOffset)) % 0x1_0000 == 0xFFFF
  {
    var img := Image(tempo, t);
    var b := Body(tempo, t);
    assert img[..ChecksumOffset] == b;
    assert img[ChecksumOffset..] == BE16(Checksum(b));
    BE16RoundTrip(Checksum(b));
    assert U16At(img, ChecksumOffset) == U16At(BE16(Checksum(b)), 0);
  }

  /** Every byte that no field covers stays zero. */
  lemma ImageUnusedZero(tempo: int, t: seq<Slice>)
    requires IsU32(tempo) && ValidTable(t)
    ensures forall k :: Unused(k, |t|) ==> Image(tempo, t)[k] == 0
  {
    var img := Image(tempo, t);
    forall k | Unused(k, |t|) ensures img[k] == 0 {
      assert img[k] == LayoutByte(tempo, |t|, t, k);
    }
  }

  // ---------------------------------------------------------------------
  // Decode and Image are inverse to each other

  /** Decoding an image gives back the tempo word and the slice table. */
  lemma {:induction false} DecodeImage(tempo: int, t: seq<Slice>)
    requires IsU32(tempo) && ValidTable(t)
    ensures Decode(Image(tempo, t)) == Some(OtFields(tempo, t))
  {
    var img := Image(tempo, t);
    ImageTags(tempo, t);
    ImageTempo(tempo, t);
    ImageConstant(tempo, t);
    ImageCount(tempo, t);
    ImageChecksum(tempo, t);
    ImageUnusedZero(tempo, t);
    forall i | 0 <= i < |t| ensures SliceAt(img, i) == t[i] {
      ImageSlice(tempo, t, i);
    }
    assert seq(|t|, i requires 0 <= i < |t| => SliceAt(img, i)) == t;
  }

  lemma WordByte(img: seq<byte>, off: nat, j: nat)
    requires off + 4 <= |img| && j < 4
    ensures img[off + j] == BE32(U32At(img, off))[j]
  {
    U32AtBytes(img, off);
    assert img[off + j] == img[off..off + 4][j];
  }

  /** Byte `r` of record `i` is the byte that packing the record read back from there puts there. */
  lemma RecordReadBack(img: seq<byte>, i: nat, r: nat)
    requires TableOffset + 12 * (i + 1) <= |img| && r < RecordSize
    ensures img[TableOffset + 12 * i + r] == Record(SliceAt(img, i))[r]
  {
    var base := TableOffset + 12 * i;
    var s := SliceAt(img, i);
    var rec := Record(s);
    if r < 4 {
      WordByte(img, base, r);
      assert rec[r] == BE32(s.start)[r];
    } else if r < 8 {
      WordByte(img, base + 4, r - 4);
      assert rec[r] == BE32(s.end)[r - 4];
    } else {
      WordByte(img, base + 8, r - 8);
      assert rec[r] == BE32(s.loop)[r - 8];
    }
  }

  /** A table byte of an image that decodes is the byte of the record decoded from there. */
  lemma DecodedTableByte(img: seq<byte>, k: nat)
    requires Decode(img).Some?
    requires TableOffset <= k < TableOffset + 12 * |Decode(img).value.slices|
    ensures (k - TableOffset) / 12 < |Decode(img).value.slices|
    ensures ValidSlice(Decode(img).value.slices[(k - TableOffset) / 12])
    ensures img[k] == Record(Decode(img).value.slices[(k - TableOffset) / 12])[(k - TableOffset) % 12]
  {
    var f := Decode(img).value;
    var i, r := (k - TableOffset) / 12, (k - TableOffset) % 12;
    assert k == TableOffset + 12 * i + r;
    RecordReadBack(img, i, r);
    assert f.slices[i] == SliceAt(img, i);
  }

  /** A tag, tempo or constant byte of an image that decodes is the byte the layout puts there. */
  lemma DecodedHeaderByte(img: seq<byte>, k: nat)
    requires Decode(img).Some? && k < TableOffset
    ensures IsU32(Decode(img).value.tempo) && ValidTable(Decode(img).value.slices)
    ensures img[k] == LayoutByte(Decode(img).value.tempo, |Decode(img).value.slices|, Decode(img).value.slices, k)
  {
    var n := |Decode(img).value.slices|;
    if k < 4 {
      assert img[k] == img[..4][k];
    } else if 8 <= k < 12 {
      assert img[k] == img[8..12][k - 8];
    } else if 12 <= k < 16 {
      assert img[k] == img[12..16][k - 12];
    } else if TempoOffset <= k < TempoOffset + 4 {
      U32AtBytes(img, TempoOffset);
      assert img[k] == img[TempoOffset..TempoOffset + 4][k - TempoOffset];
    } else if ConstOffset <= k < ConstOffset + 2 {
      U16AtBytes(img, ConstOffset);
      assert img[k] == img[ConstOffset..ConstOffset + 2][k - ConstOffset];
    } else {
      assert Unused(k, n);
    }
  }

  /** Byte `k` of an image that decodes is the byte the layout puts there. */
  lemma DecodedByte(img: seq<byte>, k: nat)
    requires Decode(img).Some? && k < ChecksumOffset
    ensures IsU32(Decode(img).value.tempo) && ValidTable(Decode(img).value.slices)
    ensures img[k] == LayoutByte(Decode(img).value.tempo, |Decode(img).value.slices|, Decode(img).value.slices, k)
  {
    var n := |Decode(img).value.slices|;
    if k < TableOffset {
      DecodedHeaderByte(img, k);
    } else if k < TableOffset + 12 * n {
      DecodedTableByte(img, k);
    } else if CountOffset <= k {
      U32AtBytes(img, CountOffset);
      assert img[k] == img[CountOffset..CountOffset + 4][k - CountOffset];
    } else {
      assert Unused(k, n);
    }
  }

  /** An image that decodes is exactly the image of what it decodes to. */
  lemma ImageOfDecoded(img: seq<byte>)
    requires Decode(img).Some?
    ensures IsU32(Decode(img).value.tempo) && ValidTable(Decode(img).value.slices)
    ensures Image(Decode(img).value.tempo, Decode(img).value.slices) == img
  {
    var f := Decode(img).value;
    DecodedByte(img, 0);
    var b := Body(f.tempo, f.slices);
    forall k | 0 <= k < ChecksumOffset ensures b[k] == img[k] {
      DecodedByte(img, k);
    }
    assert b == img[..ChecksumOffset];
    U16AtBytes(img, ChecksumOffset);
    assert img == b + img[ChecksumOffset..];
  }

  // ---------------------------------------------------------------------
  // What `write` produces

  /** In a valid table every record can be written. */
  lemma {:induction false} NoBadSlice(t: seq<Slice>, from: nat)
    requires ValidTable(t) && from <= |t|
    ensures FirstBadSlice(t, from) == |t|
    decreases |t| - from
  {
    if from < |t| {
      RecordFitsBelowMax(from);
      assert Writable(t, from);
      NoBadSlice(t, from + 1);
    }
  }

  /** The scan stops at the first record that cannot be written. */
  lemma {:induction false} FirstBadSliceAt(t: seq<Slice>, from: nat, j: nat)
    requires from <= j < |t|
    requires forall i :: from <= i < j ==> Writable(t, i)
    requires !Writable(t, j)
    ensures FirstBadSlice(t, from) == j
    decreases j - from
  {
    if from < j {
      assert Writable(t, from);
      FirstBadSliceAt(t, from + 1, j);
    }
  }

  /** With the first 64 slices writable, the scan stops at record 64. */
  lemma {:induction false} BadSliceAtMax(t: seq<Slice>, from: nat)
    requires |t| > MaxSlices && from <= MaxSlices
    requires forall i :: 0 <= i < MaxSlices ==> ValidSlice(t[i])
    ensures FirstBadSlice(t, from) == MaxSlices
    decreases MaxSlices - from
  {
    RecordFitsBelowMax(from);
    if from < MaxSlices {
      assert Writable(t, from);
      BadSliceAtMax(t, from + 1);
    } else {
      assert !Writable(t, from);
    }
  }

  /** `write` raises exactly when the tempo word or a slice value is not an
      unsigned 32-bit value or there are more than 64 slices. */
  lemma EncodeSucceeds(bpm: int, slices: Option<seq<Slice>>)
    ensures Encode(bpm, slices).Success? <==> IsU32(bpm * 24) && ValidTable(slices.GetOr([]))
  {
    var t := slices.GetOr([]);
    if IsU32(bpm * 24) && ValidTable(t) {
      NoBadSlice(t, 0);
    } else if Encode(bpm, slices).Success? {
      RecordsFitBelow(t);
    }
  }

  /** A 65th slice does not fit: with 64 writable slices before it, `write`
      raises at slice 64, before looking at its values. */
  lemma EncodeTooManySlices(bpm: int, t: seq<Slice>)
    requires IsU32(bpm * 24) && IsU32(|t|) && |t| > MaxSlices
    requires forall i :: 0 <= i < MaxSlices ==> ValidSlice(t[i])
    ensures Encode(bpm, Some(t)) == Failure(RecordOutsideImage(MaxSlices))
  {
    BadSliceAtMax(t, 0);
    RecordFitsBelowMax(MaxSlices);
  }

  /** What `write` produces decodes to the tempo word `bpm*24` and the slices given. */
  lemma EncodeDecodes(bpm: int, slices: Option<seq<Slice>>)
    requires Encode(bpm, slices).Success?
    ensures |Encode(bpm, slices).value| == OtSize
    ensures Decode(Encode(bpm, slices).value) == Some(OtFields(bpm * 24, slices.GetOr([])))
  {
    EncodeSucceeds(bpm, slices);
    DecodeImage(bpm * 24, slices.GetOr([]));
  }

  /** No slices and an empty slice list write the same file, with count 0
      and an all-zero table. */
  lemma EncodeNoSlices(bpm: int)
    requires IsU32(bpm * 24)
    ensures Encode(bpm, None) == Encode(bpm, Some([]))
    ensures Encode(bpm, None).Success?
    ensures U32At(Encode(bpm, None).value, CountOffset) == 0
    ensures forall k :: TableOffset <= k < CountOffset ==> Encode(bpm, None).value[k] == 0
  {
    EncodeSucceeds(bpm, None);
    ImageCount(bpm * 24, []);
    ImageUnusedZero(bpm * 24, []);
    forall k | TableOffset <= k < CountOffset ensures Encode(bpm, None).value[k] == 0 {
      assert Unused(k, 0);
    }
  }

  /** 120 BPM and no slices: tempo word 2880, count 0, 0x340 bytes. */
  lemma Encode120BpmNoSlices()
    ensures Encode(120, None).Success?
    ensures |Encode(120, None).value| == 0x340
    ensures U32At(Encode(120, None).value, TempoOffset) == 2880
    ensures U32At(Encode(120, None).value, CountOffset) == 0
  {
    EncodeNoSlices(120);
    ImageTempo(2880, []);
  }
}
