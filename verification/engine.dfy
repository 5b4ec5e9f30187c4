/**
 * The storage engine of `index.go` as a state machine: an active
 * memory-mapped buffer of `maxFileSize` bytes written at `activeOffset`,
 * the retired segment files `data-0`, `data-1`, ... (a segment's id is its
 * position in `dataFiles`), and the in-memory index from keys to record
 * locations. Every operation is a pure function of the state.
 */
module Engine {
  import opened Bytes
  import opened Wrappers
  import opened Errors
  import opened Codec
  import opened Log

  datatype Bitcask = Bitcask(
    mmapData: seq<byte>,
    dataFiles: seq<seq<byte>>,
    index: map<Key, FileOffset>,
    maxFileSize: nat,
    activeOffset: nat)

  /** The mapped buffer is as long as the file it maps, and the write position lies inside it. */
  predicate Shaped(db: Bitcask) {
    |db.mmapData| == db.maxFileSize && db.activeOffset <= db.maxFileSize
  }

  /** `file.Truncate(n)`: the first `n` bytes are kept, and a shorter file is extended with zeros. */
  function Truncate(content: seq<byte>, n: nat): (r: seq<byte>)
    ensures |r| == n
    ensures forall i :: 0 <= i < n ==> r[i] == if i < |content| then content[i] else 0
  {
    if n <= |content| then content[..n] else content + Zeros(n - |content|)
  }

  /**
   * `initActiveFile(filename, maxSize)`: the active file, whose content is
   * `existing` (empty when the file does not exist yet), is truncated to
   * `maxSize` bytes and mapped; writing starts over at offset 0.
   */
  function InitActiveFile(db: Bitcask, existing: seq<byte>, maxSize: nat): (r: Bitcask)
    ensures Shaped(r) && r.activeOffset == 0 && r.maxFileSize == maxSize
    ensures forall i :: 0 <= i < maxSize ==> r.mmapData[i] == if i < |existing| then existing[i] else 0
    ensures r.dataFiles == db.dataFiles && r.index == db.index
  {
    db.(mmapData := Truncate(existing, maxSize), maxFileSize := maxSize, activeOffset := 0)
  }

  /** Reopening the active file of its own size keeps every byte of it; only the write position starts over. */
  lemma ReopenKeepsBuffer(db: Bitcask)
    requires Shaped(db)
    ensures InitActiveFile(db, db.mmapData, db.maxFileSize) == db.(activeOffset := 0)
  {
    assert db.mmapData[..db.maxFileSize] == db.mmapData;
  }

  /** A fresh engine: no segments, an empty index, and a new zero-filled active file. */
  function Empty(maxSize: nat): (r: Bitcask)
    ensures Shaped(r) && r.maxFileSize == maxSize && r.dataFiles == [] && r.index == map[]
    ensures r.mmapData == Zeros(maxSize)
  {
    InitActiveFile(Bitcask([], [], map[], 0, 0), [], maxSize)
  }

  /** The bytes of the file with id `id`: the mapped buffer for `-1`, a segment otherwise. */
  function FileOf(db: Bitcask, id: int): (r: Result<seq<byte>, Error>)
    ensures r.Ok? <==> id == ActiveFileId || 0 <= id < |db.dataFiles|
    ensures r.Err? ==> r.error == NoSuchSegment
  {
    if id == ActiveFileId then Ok(db.mmapData)
    else if 0 <= id < |db.dataFiles| then Ok(db.dataFiles[id])
    else Err(NoSuchSegment)
  }

  /** Decoding the record at `offset` of a file; reading past the end finds nothing. */
  function ReadAt(file: seq<byte>, offset: nat): (d: Decoded)
    ensures d.Decoded? ==> offset + d.size <= |file|
  {
    if offset <= |file| then DecodeAt(file, offset) else Failed(EndOfFile)
  }

  /** The value of the record stored at `loc`, or why it cannot be read. */
  function ValueAt(db: Bitcask, loc: FileOffset): (r: Result<seq<byte>, Error>)
    ensures r.Err? ==> r.error != KeyNotFound
  {
    var file :- FileOf(db, loc.fileId);
    match ReadAt(file, loc.offset)
    case Failed(e) => Err(e)
    case Decoded(rec, _) => Ok(rec.value)
  }

  /** `Get`: "key not found" exactly for the keys the index lacks; otherwise the value stored where the index points. */
  function Get(db: Bitcask, key: Key): (r: Result<seq<byte>, Error>)
    ensures r == Err(KeyNotFound) <==> key !in db.index
  {
    if key !in db.index then Err(KeyNotFound) else ValueAt(db, db.index[key])
  }

  /** Index entries into the active file, moved to the segment with id `id`: the index update of the corrected rotation, which `index.go` omits. */
  function Repoint(index: map<Key, FileOffset>, id: int): (r: map<Key, FileOffset>)
    ensures r.Keys == index.Keys
    ensures forall k :: k in index ==> r[k].offset == index[k].offset
    ensures forall k :: k in index ==> r[k].fileId == if index[k].fileId == ActiveFileId then id else index[k].fileId
  {
    map k | k in index :: if index[k].fileId == ActiveFileId then FileOffset(id, index[k].offset) else index[k]
  }

  /**
   * `rotateActiveFile`, corrected: the written part of the active file
   * becomes the segment `data-N` with `N` the number of segments so far,
   * the entries that pointed into the active file now point into that
   * segment, and a fresh active file is mapped. As written, `index.go`
   * retires the whole mapped buffer, padding included, and leaves the index
   * unchanged; `AsWritten.RotateAsWritten` models that.
   */
  function Rotate(db: Bitcask): (r: Bitcask)
    requires Shaped(db)
    ensures Shaped(r) && r.activeOffset == 0 && r.maxFileSize == db.maxFileSize
    ensures r.dataFiles == db.dataFiles + [db.mmapData[..db.activeOffset]]
    ensures r.index == Repoint(db.index, |db.dataFiles|)
    ensures r.mmapData == Zeros(db.maxFileSize)
  {
    var retired := db.mmapData[..db.activeOffset];
    InitActiveFile(db.(dataFiles := db.dataFiles + [retired], index := Repoint(db.index, |db.dataFiles|)), [], db.maxFileSize)
  }

  /** Whether a record for `key` and `value` can be stored: its sizes fit the header and it fits an empty active file. */
  predicate Fits(key: Key, value: seq<byte>, maxFileSize: nat) {
    |key| < U32Limit && |value| < U32Limit && HeaderSize + |key| + |value| <= maxFileSize
  }

  /** Writing `encoded` for `key` at the write position, which has room for it. */
  function Append(db: Bitcask, key: Key, encoded: seq<byte>): (r: Bitcask)
    requires Shaped(db) && db.activeOffset + |encoded| <= db.maxFileSize
    ensures Shaped(r) && r.maxFileSize == db.maxFileSize && r.dataFiles == db.dataFiles
    ensures r.activeOffset == db.activeOffset + |encoded|
    ensures r.mmapData[db.activeOffset..r.activeOffset] == encoded
    ensures r.mmapData[..db.activeOffset] == db.mmapData[..db.activeOffset]
    ensures r.mmapData[r.activeOffset..] == db.mmapData[r.activeOffset..]
    ensures r.index == db.index[key := FileOffset(ActiveFileId, db.activeOffset)]
  {
    db.(mmapData := CopyInto(db.mmapData, db.activeOffset, encoded),
        index := db.index[key := FileOffset(ActiveFileId, db.activeOffset)],
        activeOffset := db.activeOffset + |encoded|)
  }

  /** Whether `Put` has to rotate before writing `encoded`. */
  predicate MustRotate(db: Bitcask, encoded: seq<byte>) {
    db.activeOffset + |encoded| > db.maxFileSize
  }

  /**
   * `Put`: builds the record (checksum of the value, the caller's
   * timestamp `now`, no expiry), rotates when the record does not fit
   * behind the write position, writes it there and points the index at it.
   * Corrected in two ways: the rotation is the corrected `Rotate`, and a
   * record that could not fit even an empty active file, or whose key or
   * value is too long for a 32-bit size, is refused. As written, `index.go`
   * has no such check (`AsWritten.PutAsWritten`).
   */
  function Put(db: Bitcask, key: Key, value: seq<byte>, now: u32): (r: Result<Bitcask, Error>)
    requires Shaped(db)
    ensures r.Ok? <==> Fits(key, value, db.maxFileSize)
    ensures r.Err? ==> r.error == RecordTooLarge
    ensures r.Ok? ==>
      var encoded := EncodeRecord(NewRecord(key, value, now));
      var at := if MustRotate(db, encoded) then 0 else db.activeOffset;
      && Shaped(r.value) && r.value.maxFileSize == db.maxFileSize
      && r.value.index == (if MustRotate(db, encoded) then Repoint(db.index, |db.dataFiles|) else db.index)[key := FileOffset(ActiveFileId, at)]
      && r.value.activeOffset == at + |encoded| <= r.value.maxFileSize
      && r.value.mmapData[at..at + |encoded|] == encoded
      && (!MustRotate(db, encoded) ==>
        && r.value.dataFiles == db.dataFiles
        && r.value.mmapData[..at] == db.mmapData[..at]
        && r.value.mmapData[at + |encoded|..] == db.mmapData[at + |encoded|..])
      && (MustRotate(db, encoded) ==>
        && r.value.dataFiles == db.dataFiles + [db.mmapData[..db.activeOffset]]
        && r.value.mmapData[at + |encoded|..] == Zeros(db.maxFileSize - |encoded|))
  {
    var record := NewRecord(key, value, now);
    var encoded := EncodeRecord(record);
    if !Fits(key, value, db.maxFileSize) then Err(RecordTooLarge)
    else
      var ready := if MustRotate(db, encoded) then Rotate(db) else db;
      Ok(Append(ready, key, encoded))
  }

  /** No key appears twice in `order`. */
  predicate Distinct(order: seq<Key>) {
    forall i, j :: 0 <= i < j < |order| ==> order[i] != order[j]
  }

  /** `order` lists every key of `index` exactly once: one possible iteration order of a Go map. */
  predicate IsKeyOrder(order: seq<Key>, index: map<Key, FileOffset>) {
    && Distinct(order)
    && (forall k :: k in order ==> k in index)
    && (forall k :: k in index ==> k in order)
  }

  /** The compacted file being written and the index that goes with it. */
  datatype Compacted = Compacted(file: seq<byte>, index: map<Key, FileOffset>)

  /**
   * The loop of `Compact` over the keys `order`: for each key, the live
   * value is read from where the index points and a fresh record for it is
   * appended to the compacted file, whose entry goes into the new index
   * under segment id 0.
   */
  function CompactFrom(db: Bitcask, order: seq<Key>, now: u32): (r: Result<Compacted, Error>)
    requires forall k :: k in order ==> k in db.index
    ensures r.Ok? ==> forall k :: k in r.value.index <==> k in order
    ensures r.Ok? ==> forall k :: k in r.value.index ==> r.value.index[k].fileId == 0
    decreases |order|
  {
    if order == [] then Ok(Compacted([], map[]))
    else
      var init := order[..|order| - 1];
      var key := order[|order| - 1];
      assert order == init + [key];
      var c :- CompactFrom(db, init, now);
      var value :- ValueAt(db, db.index[key]);
      var encoded := EncodeRecord(NewRecord(key, value, now));
      Ok(Compacted(c.file + encoded, c.index[key := FileOffset(0, |c.file|)]))
  }

  /**
   * `Compact`: every live record is rewritten into one new segment, which
   * replaces all segments; the active file is left as it is.
   */
  function Compact(db: Bitcask, order: seq<Key>, now: u32): (r: Result<Bitcask, Error>)
    requires IsKeyOrder(order, db.index)
    ensures r.Ok? ==>
      && r.value.index.Keys == db.index.Keys
      && (forall k :: k in r.value.index ==> r.value.index[k].fileId == 0)
      && |r.value.dataFiles| == 1
      && r.value.mmapData == db.mmapData && r.value.activeOffset == db.activeOffset
      && r.value.maxFileSize == db.maxFileSize
  {
    var c :- CompactFrom(db, order, now);
    Ok(db.(dataFiles := [c.file], index := c.index))
  }
}
