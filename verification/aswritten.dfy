/**
 * `rotateActiveFile`, `Put`, and `Get` after `Compact`, exactly as
 * `index.go` writes them, where they differ from the corrected
 * `Engine.Rotate`, `Engine.Put` and `Engine.Compact`, with the inputs that
 * show each difference.
 */
module AsWritten {
  import opened Bytes
  import opened Wrappers
  import opened Errors
  import opened Codec
  import opened Log
  import opened Engine
  import opened Recovery
  import opened Refinement

  /**
   * `rotateActiveFile` as written: the whole mapped file, zero padding
   * behind the write position included, is renamed into the next segment,
   * and index entries into the active file are left pointing there.
   */
  function RotateAsWritten(db: Bitcask): (r: Bitcask)
    requires Shaped(db)
    ensures Shaped(r) && r.activeOffset == 0 && r.maxFileSize == db.maxFileSize
    ensures r.dataFiles == db.dataFiles + [db.mmapData]
    ensures r.index == db.index
    ensures r.mmapData == Zeros(db.maxFileSize)
  {
    InitActiveFile(db.(dataFiles := db.dataFiles + [db.mmapData]), [], db.maxFileSize)
  }

  /**
   * `Put` as written: no size check, the rotation above, then `copy` of as
   * much of the record as fits, while the offset moves by the whole record.
   */
  function PutAsWritten(db: Bitcask, key: Key, value: seq<byte>, now: u32): (r: Bitcask)
    requires Shaped(db)
    ensures var encoded := EncodeRecord(NewRecord(key, value, now));
      var at := if MustRotate(db, encoded) then 0 else db.activeOffset;
      && r.maxFileSize == db.maxFileSize && |r.mmapData| == db.maxFileSize
      && r.index == (if MustRotate(db, encoded) then RotateAsWritten(db) else db).index[key := FileOffset(ActiveFileId, at)]
      && r.activeOffset == at + |encoded|
      && (r.activeOffset <= r.maxFileSize ==> Shaped(r) && r.mmapData[at..r.activeOffset] == encoded)
      && (r.activeOffset > r.maxFileSize ==> r.mmapData[at..] == encoded[..db.maxFileSize - at])
  {
    var encoded := EncodeRecord(NewRecord(key, value, now));
    var ready := if MustRotate(db, encoded) then RotateAsWritten(db) else db;
    ready.(mmapData := CopyInto(ready.mmapData, ready.activeOffset, encoded),
           index := ready.index[key := FileOffset(ActiveFileId, ready.activeOffset)],
           activeOffset := ready.activeOffset + |encoded|)
  }

  /** The record `Put` builds for `key` and `value`, encoded. */
  function Encoded(key: Key, value: seq<byte>, now: u32): (e: seq<byte>)
    ensures |e| == HeaderSize + |key| + |value|
  {
    EncodeRecord(NewRecord(key, value, now))
  }

  /** Reading the active file where `Put` wrote a record yields the record's value. */
  lemma ReadBack(db: Bitcask, key: Key, value: seq<byte>, now: u32, at: nat)
    requires |key| < U32Limit && |value| < U32Limit
    requires at + |Encoded(key, value, now)| <= |db.mmapData|
    requires db.mmapData[at..at + |Encoded(key, value, now)|] == Encoded(key, value, now)
    ensures ValueAt(db, FileOffset(ActiveFileId, at)) == Ok(value)
  {
    NewRecordRoundTrip(key, value, now, db.mmapData, at);
  }

  /**
   * Two writes where the second does not fit behind the first: as written,
   * the first key's index entry still says "active file, offset 0" after the
   * rotation, where the second record now sits, so `Get` of the first key
   * returns the second value.
   */
  lemma StaleIndexAfterRotation(a: Key, b: seq<byte>, c: Key, d: seq<byte>, now: u32, maxSize: nat)
    requires a != c && Fits(a, b, maxSize) && Fits(c, d, maxSize)
    requires |Encoded(a, b, now)| + |Encoded(c, d, now)| > maxSize
    ensures var first := PutAsWritten(Empty(maxSize), a, b, now);
      && Shaped(first)
      && Get(PutAsWritten(first, c, d, now), a) == Ok(d)
  {
    var first := PutAsWritten(Empty(maxSize), a, b, now);
    var second := PutAsWritten(first, c, d, now);
    assert second.index[a] == FileOffset(ActiveFileId, 0);
    ReadBack(second, c, d, now, 0);
  }

  /** The corrected engine on the same two writes: `Get` of the first key returns the first value. */
  lemma TwoPutsKeepFirst(a: Key, b: seq<byte>, c: Key, d: seq<byte>, now: u32, maxSize: nat)
    requires a != c && Fits(a, b, maxSize) && Fits(c, d, maxSize)
    ensures Put(Empty(maxSize), a, b, now).Ok?
    ensures Put(Put(Empty(maxSize), a, b, now).value, c, d, now).Ok?
    ensures Get(Put(Put(Empty(maxSize), a, b, now).value, c, d, now).value, a) == Ok(b)
  {
    var empty := Contents([], []);
    EmptyRepresents(maxSize);
    PutThenGet(Empty(maxSize), empty, a, b, now, a);
    PutRefines(Empty(maxSize), empty, a, b, now);
    var first := Put(Empty(maxSize), a, b, now).value;
    PutThenGet(first, PutContents(Empty(maxSize), empty, a, b, now), c, d, now, a);
  }

  /** The segment a rotation as written retires after one record: the record, then the zero padding up to the file size. */
  lemma RetiredAfterOneRecord(a: Key, b: seq<byte>, c: Key, d: seq<byte>, now: u32, maxSize: nat)
    requires Fits(a, b, maxSize) && Fits(c, d, maxSize)
    requires |Encoded(a, b, now)| + |Encoded(c, d, now)| > maxSize
    ensures var first := PutAsWritten(Empty(maxSize), a, b, now);
      && Shaped(first) && Shaped(PutAsWritten(first, c, d, now))
      && PutAsWritten(first, c, d, now).dataFiles == [first.mmapData]
      && |first.mmapData| == maxSize
      && first.mmapData[..|Encoded(a, b, now)|] == Encoded(a, b, now)
  {
  }

  /** Scanning a segment whose only record is followed by 1 to 19 bytes of anything fails with a truncation. */
  lemma ScanPaddedSegment(seg: seq<byte>, a: Key, b: seq<byte>, now: u32)
    requires |a| < U32Limit && |b| < U32Limit
    requires |Encoded(a, b, now)| < |seg| < |Encoded(a, b, now)| + HeaderSize
    requires seg[..|Encoded(a, b, now)|] == Encoded(a, b, now)
    ensures ScanSegment(seg, 0, []) == Err(Truncated)
  {
    var e := Encoded(a, b, now);
    assert seg[0..|e|] == e;
    NewRecordRoundTrip(a, b, now, seg, 0);
    ScanSegmentStep(seg, 0, []);
  }

  /**
   * Two writes where the second rotates, leaving 1 to 19 bytes of padding
   * behind the first record: as written, recovery from the resulting files
   * fails, because the retired segment ends in a partial header.
   */
  lemma PaddedSegmentBreaksRecovery(a: Key, b: seq<byte>, c: Key, d: seq<byte>, now: u32, maxSize: nat)
    requires Fits(a, b, maxSize) && Fits(c, d, maxSize)
    requires |Encoded(a, b, now)| + |Encoded(c, d, now)| > maxSize
    requires maxSize < |Encoded(a, b, now)| + HeaderSize && |Encoded(a, b, now)| < maxSize
    ensures var second := PutAsWritten(PutAsWritten(Empty(maxSize), a, b, now), c, d, now);
      && Shaped(second)
      && RecoverIndex(second.(index := map[])) == Err(Truncated)
  {
    RetiredAfterOneRecord(a, b, c, d, now, maxSize);
    var first := PutAsWritten(Empty(maxSize), a, b, now);
    var second := PutAsWritten(first, c, d, now);
    ScanPaddedSegment(first.mmapData, a, b, now);
    assert [first.mmapData][..0] == [];
    assert ScanSegments(second.dataFiles) == Err(Truncated);
    assert RecoveredLog(second.(index := map[])) == Err(Truncated);
  }

  /**
   * Twenty zero bytes, the padding of an unused part of a file, decode as a
   * record with an empty key and an empty value, whose checksum of zero is
   * the checksum of the empty value.
   */
  lemma ZeroHeaderDecodes(buf: seq<byte>, pos: nat)
    requires pos + HeaderSize <= |buf| && buf[pos..pos + HeaderSize] == Zeros(HeaderSize)
    ensures DecodeAt(buf, pos) == Decoded(Record(Header(0, 0, 0, 0, 0), [], []), HeaderSize)
  {
    var rec := Record(Header(0, 0, 0, 0, 0), [], []);
    assert LittleEndian(0, 4) == [0, 0, 0, 0];
    assert EncodeRecord(rec) == Zeros(HeaderSize);
    RecordRoundTrip(rec, buf, pos);
  }

  /**
   * A record that cannot fit even an empty active file: as written, only
   * its first `maxFileSize` bytes are copied, the write position moves past
   * the end of the mapped buffer, and the index entry for the key leads to a
   * record that cannot be read back.
   */
  lemma OversizedRecordOverruns(db: Bitcask, key: Key, value: seq<byte>, now: u32)
    requires Shaped(db) && |key| < U32Limit && |value| < U32Limit
    requires !Fits(key, value, db.maxFileSize)
    ensures var r := PutAsWritten(db, key, value, now);
      && r.activeOffset > |r.mmapData|
      && r.index[key] == FileOffset(ActiveFileId, 0)
      && Get(r, key).Err?
  {
    var r := PutAsWritten(db, key, value, now);
    if HeaderSize <= db.maxFileSize {
      var h := NewRecord(key, value, now).header;
      assert r.mmapData[0..HeaderSize] == EncodeHeader(h);
      HeaderRoundTrip(h, r.mmapData, 0);
    }
  }

  /**
   * `Get` as written once `Compact` has run: the only segment is
   * `tempFile`, which the deferred `Close` of `Compact` has closed, so
   * `Seek` and `Read` fail with their errors ignored, and the record is
   * decoded from the `recordSize` zero bytes `make` allocated.
   */
  function GetClosedSegmentAsWritten(db: Bitcask, key: Key, recordSize: nat): (r: Result<seq<byte>, Error>)
    ensures key !in db.index <==> r == Err(KeyNotFound)
  {
    if key !in db.index then Err(KeyNotFound)
    else if db.index[key].fileId == ActiveFileId then ValueAt(db, db.index[key])
    else
      match DecodeAt(Zeros(recordSize), 0)
      case Failed(e) => Err(e)
      case Decoded(rec, _) => Ok(rec.value)
  }

  /**
   * After `Compact` as written, `Get` of any indexed key reads the closed
   * segment: it fails when `recordSize` is below a header and returns the
   * empty value otherwise, whatever value the key holds.
   */
  lemma ClosedSegmentReadsNothing(db: Bitcask, c: Contents, order: seq<Key>, now: u32, key: Key, recordSize: nat)
    requires Represents(db, c) && IsKeyOrder(order, db.index) && key in db.index
    ensures Compact(db, order, now).Ok?
    ensures var r := GetClosedSegmentAsWritten(Compact(db, order, now).value, key, recordSize);
      (r.Ok? <==> HeaderSize <= recordSize) && (r.Ok? ==> r.value == [])
  {
    CompactSucceeds(db, c, order, now);
    SegmentReadsNothing(Compact(db, order, now).value, key, recordSize);
  }

  /** `Get` as written of a key indexed into a segment that has been closed. */
  lemma SegmentReadsNothing(db: Bitcask, key: Key, recordSize: nat)
    requires key in db.index && db.index[key].fileId != ActiveFileId
    ensures var r := GetClosedSegmentAsWritten(db, key, recordSize);
      (r.Ok? <==> HeaderSize <= recordSize) && (r.Ok? ==> r.value == [])
  {
    ZerosDecode(recordSize);
  }

  /** A buffer of `n` zero bytes decodes, at its start, to the empty record when it holds a header, and to an error otherwise. */
  lemma ZerosDecode(n: nat)
    ensures DecodeAt(Zeros(n), 0).Decoded? <==> HeaderSize <= n
    ensures DecodeAt(Zeros(n), 0).Decoded? ==> DecodeAt(Zeros(n), 0).record.value == []
  {
    if HeaderSize <= n {
      assert Zeros(n)[0..HeaderSize] == Zeros(HeaderSize);
      ZeroHeaderDecodes(Zeros(n), 0);
    }
  }
}
