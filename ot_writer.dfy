/** `write(item, bpm, slices)` of audio/ot_writer.py: fills a zeroed
    0x340-byte buffer field by field, then sums it and stores the checksum
    in its last two bytes. The file path and the file write are not part of
    this model; the bytes that would be written are returned instead. */
module OtWriter {
  import opened Wrappers
  import opened OtLayout

  /** `mv[off:off+len(bytes)] = bytes` and `struct.pack_into(fmt, mv, off, ...)`:
      overwrites `|bytes|` bytes at `off` and nothing else. */
  method Put(buf: array<byte>, off: nat, bytes: seq<byte>)
    requires off + |bytes| <= buf.Length
    modifies buf
    ensures forall k :: 0 <= k < buf.Length ==>
      buf[k] == if off <= k < off + |bytes| then bytes[k - off] else old(buf[k])
  {
    forall k | off <= k < off + |bytes| {
      buf[k] := bytes[k - off];
    }
  }

  /** Writing one more record changes the layout in that record's 12 bytes only. */
  lemma AppendRecord(tempo: int, count: int, w: seq<Slice>, k: int)
    requires IsU32(tempo) && IsU32(count) && ValidTable(w) && |w| > 0
    requires 0 <= k < ChecksumOffset
    ensures ValidTable(w[..|w| - 1])
    ensures LayoutByte(tempo, count, w, k) ==
      if TableOffset + 12 * (|w| - 1) <= k < TableOffset + 12 * |w|
      then Record(w[|w| - 1])[k - (TableOffset + 12 * (|w| - 1))]
      else LayoutByte(tempo, count, w[..|w| - 1], k)
  {
    var last := |w| - 1;
    var base := TableOffset + 12 * last;
    assert ValidTable(w[..last]);
    RecordFitsBelowMax(last);
    if base <= k < base + 12 {
      TablePosition(last, k - base);
    } else if TableOffset <= k < base {
      var j := (k - TableOffset) / 12;
      assert j < last;
      assert w[..last][j] == w[j];
    }
  }

  /** The tags, the tempo word, the constant and the count, written into a
      zeroed buffer (audio/ot_writer.py, lines 8-13). */
  method PutHeader(buf: array<byte>, tempo: int, count: int)
    requires buf.Length == OtSize && IsU32(tempo) && IsU32(count)
    requires forall k :: 0 <= k < OtSize ==> buf[k] == 0
    modifies buf
    ensures forall k :: 0 <= k < ChecksumOffset ==> buf[k] == LayoutByte(tempo, count, [], k)
    ensures buf[ChecksumOffset] == 0 && buf[ChecksumOffset + 1] == 0
  {
    Put(buf, 0, FormTag);
    Put(buf, 8, Dps1Tag);
    Put(buf, 12, SmpaTag);
    Put(buf, TempoOffset, BE32(tempo));
    Put(buf, ConstOffset, BE16(ConstValue));
    Put(buf, CountOffset, BE32(count));
  }

  /** `struct.pack_into('>III', mv, 0x3A + i*12, st, en, lp)` */
  method PutRecord(buf: array<byte>, i: nat, s: Slice)
    requires buf.Length == OtSize && RecordFits(i) && ValidSlice(s)
    modifies buf
    ensures forall k :: 0 <= k < OtSize ==>
      buf[k] == if TableOffset + 12 * i <= k < TableOffset + 12 * i + 12
                then Record(s)[k - (TableOffset + 12 * i)] else old(buf[k])
  {
    Put(buf, TableOffset + 12 * i, Record(s));
  }

  /** Storing record `i` over a buffer laid out with records `t[..i]` gives
      the layout with records `t[..i+1]`. */
  lemma StoredRecord(tempo: int, count: int, t: seq<Slice>, i: nat, before: seq<byte>, after: seq<byte>)
    requires IsU32(tempo) && IsU32(count) && i < |t| && i < MaxSlices
    requires ValidTable(t[..i]) && ValidSlice(t[i])
    requires |before| == |after| == OtSize
    requires forall k :: 0 <= k < ChecksumOffset ==> before[k] == LayoutByte(tempo, count, t[..i], k)
    requires forall k :: 0 <= k < OtSize ==>
      after[k] == if TableOffset + 12 * i <= k < TableOffset + 12 * i + 12
                  then Record(t[i])[k - (TableOffset + 12 * i)] else before[k]
    ensures ValidTable(t[..i + 1])
    ensures forall k :: 0 <= k < ChecksumOffset ==> after[k] == LayoutByte(tempo, count, t[..i + 1], k)
  {
    assert t[..i + 1][..i] == t[..i];
    assert ValidTable(t[..i + 1]);
    forall k | 0 <= k < ChecksumOffset
      ensures after[k] == LayoutByte(tempo, count, t[..i + 1], k)
    {
      AppendRecord(tempo, count, t[..i + 1], k);
    }
  }

  /** `struct.pack_into('>H', mv, -2, (0xFFFF - sum(mv[:-2])) & 0xFFFF)`. */
  method PutChecksum(buf: array<byte>)
    requires buf.Length == OtSize
    modifies buf
    ensures buf[..] == old(buf[..ChecksumOffset]) + BE16(Checksum(old(buf[..ChecksumOffset])))
  {
    var checksum := Checksum(buf[..ChecksumOffset]);
    Put(buf, ChecksumOffset, BE16(checksum));
    assert buf[..] == buf[..ChecksumOffset] + buf[ChecksumOffset..];
  }

  /** The bytes `write` stores in the `.ot` file, or the error
      `struct.pack_into` raises. */
  method Write(bpm: int, slices: Option<seq<Slice>>) returns (r: Result<seq<byte>, WriteError>)
    ensures r == Encode(bpm, slices)
  {
    var buf := new byte[OtSize](_ => 0);
    var tempo := bpm * 24;
    if !IsU32(tempo) {
      return Failure(TempoOutOfRange(tempo));
    }
    var t := slices.GetOr([]);  // `slices or []`
    if !IsU32(|t|) {
      return Failure(CountOutOfRange(|t|));
    }
    PutHeader(buf, tempo, |t|);
    assert t[..0] == [];
    var i := 0;
    while i < |t|
      invariant 0 <= i <= |t|
      invariant forall j :: 0 <= j < i ==> Writable(t, j)
      invariant ValidTable(t[..i])
      invariant forall k :: 0 <= k < ChecksumOffset ==> buf[k] == LayoutByte(tempo, |t|, t[..i], k)
      invariant buf[ChecksumOffset] == 0 && buf[ChecksumOffset + 1] == 0
    {
      RecordFitsBelowMax(i);
      if !RecordFits(i) {
        FirstBadSliceAt(t, 0, i);
        return Failure(RecordOutsideImage(i));
      }
      if !ValidSlice(t[i]) {
        FirstBadSliceAt(t, 0, i);
        return Failure(SliceValueOutOfRange(i));
      }
      ghost var before := buf[..];
      PutRecord(buf, i, t[i]);
      StoredRecord(tempo, |t|, t, i, before, buf[..]);
      i := i + 1;
    }
    assert t[..i] == t;
    NoBadSlice(t, 0);
    assert buf[..ChecksumOffset] == Body(tempo, t);
    PutChecksum(buf);
    return Success(buf[..]);
  }
}
