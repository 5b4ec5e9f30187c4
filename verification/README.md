# Bitcask storage engine of `index.go`, modelled in Dafny

This project models the append-only key-value store in `index.go`. It has
three parts:

- one memory-mapped *active file* of `maxFileSize` bytes, written at
  `activeOffset`;
- a list of retired *segment files* `data-0`, `data-1`, ...;
- an in-memory *index* from each key to the `FileOffset` (file id, byte
  offset) of the record holding its latest value. File id `-1` names the
  active file.

A record is a 20-byte header of five little-endian 32-bit words, then the
key, then the value. The words are checksum, timestamp, expiry, key size
and value size. The checksum is the CRC-32 (IEEE) of the value.

The engine is a pure state machine (`Engine.Bitcask`). `Put`, `Get`,
`rotateActiveFile`, `Compact`, `recoverIndex` and `initActiveFile` are
functions of the state. Files are byte sequences, and a "file on disk" is
the sequence of bytes written to it.

Two independent descriptions are related to the engine:

- **Key-value view** (`Refinement`). `Contents` lists the records each file
  holds, in append order. `Lookup` is the value of the last write of a key.
  `Represents(db, c)` says two things. First, every file is the
  serialization of its records (`Laid`). Second, the index holds exactly
  the written keys, each pointing at a record with the key's last value
  (`Indexed`). Every operation except `initActiveFile` after a restart
  (see Left out) is shown to preserve `Represents` and to act on `Lookup`
  the way a key-value map would.
- **Log replay** (`Log`). Recovery is specified as replaying the located
  records of all files in write order into the index, so the last write of
  each key wins. The scan loops are proved to read back exactly what was
  written.

Modules:

- `Bytes`: bytes, 32-bit words, little-endian encoding, Go's `copy`.
- `Crc32`: the IEEE CRC-32.
- `Codec`: header and record encoding and the record decoder.
- `Layout`: files as serialized record sequences.
- `Log`: locations, located records, last-write-wins replay.
- `Engine`: the operations.
- `Recovery`: `recoverIndex`.
- `Refinement`: the key-value view and the proofs that the operations
  refine it.
- `AsWritten`: `rotateActiveFile`, `Put`, and `Get` after `Compact`,
  exactly as written, with the inputs that show where they go wrong (see
  Findings).
- `Wrappers`, `Errors`: `Option`, `Result` and the error kinds.

Parameters stand in for the environment:

- `now` for `time.Now()`;
- `existing` for a pre-existing active file's content;
- `order` for Go's map iteration order in `Compact`.

## Model

| member | source | states |
|---|---|---|
| Codec.EncodeHeader | index.go:44-55 | the header encodes to exactly 20 bytes (five 32-bit words) |
| Codec.DecodeHeaderAt | index.go:57-60 | reading a header: end of file exactly when no byte is left, an error exactly when fewer than 20 bytes remain |
| Codec.HeaderRoundTrip | index.go:52-60 | decoding an encoded header at any position gives the header back |
| Codec.HeaderEncodeDecode | index.go:52-60 | any 20 bytes are the encoding of the header read from them, so the header codec is a bijection |
| Codec.NewRecord | index.go:88-99 | the record `Put` builds carries the key and value, and its header describes them exactly when both lengths fit a `uint32` |
| Codec.DecodeAt | index.go:143-146 | the decoder fails with end of file exactly at the end of the buffer; a decoded record is well-formed, with matching sizes and checksum, and lies inside the buffer |
| Codec.DecodeAtSound | index.go:143-146 | a decoded record occupies exactly its own encoding's bytes |
| Codec.RecordRoundTrip | index.go:101-105 | a well-formed record encoded anywhere in a buffer decodes back to itself, with its encoded size |
| Codec.NewRecordRoundTrip | index.go:88-117 | what `Put` writes is read back unchanged wherever it lands |
| Crc32.ChecksumIEEE | index.go:91 | the checksum is a 32-bit word, and the empty value sums to zero |
| Crc32.CheckValue | index.go:91 | the checksum `Put` stores is the standard IEEE CRC-32: the nine ASCII digits "123456789" sum to 0xCBF43926, the check value of that CRC |
| Engine.InitActiveFile | index.go:62-82 | the active file is truncated or extended to `maxSize` bytes and mapped: byte `i` is the old content's byte `i` when there is one and 0 otherwise; the write position restarts at 0, and segments and index are untouched |
| Engine.ReopenKeepsBuffer | index.go:62-82 | re-initialising an active file of the right size keeps every byte and only moves the write position back to 0 |
| Engine.Empty | index.go:62-82 | a fresh engine has no segments, an empty index and a zero-filled active file |
| Engine.FileOf | index.go:132-137 | file id `-1` is the active buffer and `0..n-1` are the segments; any other id is an error |
| Engine.Get | index.go:122-149 | "key not found" exactly for keys the index lacks; every other failure is a read error |
| Engine.Repoint | index.go:151-175 | corrected rotation (see Findings): the active file's index entries move to the new segment's id at the same offsets, and the other entries stay |
| Engine.Rotate | index.go:151-175 | corrected rotation (see Findings): the written part of the active file becomes segment `len(dataFiles)`, its index entries follow it, and a fresh zero-filled active file starts at offset 0 |
| Engine.Append | index.go:114-117 | the encoding lands at the write position, no other byte of the buffer changes, the offset advances by the record's length, and the key points at the record |
| Engine.Put | index.go:84-120 | corrected `Put` (see Findings): succeeds exactly when the record fits an empty file; rotates exactly when the record does not fit behind the write position; writes the record within the file and points the key at it; changes nothing else when it does not rotate; when it rotates, the written part of the old active file becomes the last segment and the fresh buffer is zero behind the record |
| Engine.CompactFrom | index.go:188-202 | the compaction loop indexes exactly the keys it visits, all in segment 0 |
| Engine.Compact | index.go:177-210 | after compaction the index has the same keys, all in the single segment 0, and the active file is untouched |
| Log.LastEntry | index.go:224 | the entry found for a key is in the log and has the key; there is none exactly when no entry has the key |
| Log.LastEntryIsLast | index.go:224 | the entry found for a key is the last one with the key: no later entry of the log has it |
| Log.Replay | index.go:224 | replaying a log keeps the old keys and adds exactly the keys the log mentions |
| Log.ReplayLastWins | index.go:214-238 | replay maps every key to its last entry's location, and keeps the old entry of keys the log never mentions |
| Log.ReplayAppend | index.go:212-241 | replaying the segments and then the active file is replaying their concatenation |
| Layout.FindEntry | index.go:114-117 | every record appended to a file is found at the offset where it was written |
| Layout.FindIsEntry | index.go:114-117 | only the offsets where records were written hold a record |
| Layout.DecodeFound | index.go:131-146 | the record found at an offset of a serialized file decodes there from any buffer that starts with the file |
| Recovery.ScanSegment | index.go:214-227 | the segment loop stops cleanly only at end of file, so no error it returns is end of file, and what it returns extends the entries read before; its partners are `ScanSerialized` and `ScanSegmentChained` |
| Recovery.ScanSegmentChained | index.go:214-227 | whatever a successful segment scan returns was really in the file: the new entries decode back to back from the starting offset, each into its record, the last one ending exactly at the end of the file |
| Recovery.ScanActive | index.go:229-238 | the active loop fails only below `activeOffset`, and what it returns extends the entries read before; its partners are `ScanActiveSerialized` and `ScanActiveChained` |
| Recovery.ScanActiveChained | index.go:229-238 | whatever a successful active-file scan returns was really in the buffer: the new entries decode back to back from the starting offset, each starts below `activeOffset`, and the scan stops at the first record boundary at or beyond it |
| Recovery.RecoverIndex | index.go:212-241 | recovery succeeds exactly when every file scans; its index is the replay of the segments' entries followed by the replay of the active file's, and holds the old keys plus every key read |
| Recovery.RecoverAfterRestart | index.go:62-82 | after `initActiveFile` the write position is 0, so recovery reads nothing from the active file, whatever it holds, and only the segments are replayed |
| Recovery.ScanSegmentsFails | index.go:221-223 | the first unreadable segment makes all of recovery fail with its error |
| Recovery.ScanSerialized | index.go:214-227 | a segment written as a sequence of records scans back to exactly those records at their offsets, ending cleanly at end of file |
| Recovery.ScanActiveSerialized | index.go:229-238 | the active file's written prefix scans back to exactly its records |
| Refinement.GetRefines | index.go:122-149 | `Get` returns the key's last written value, or "key not found" when it was never written |
| Refinement.EmptyRepresents | index.go:62-82 | a fresh engine represents the empty store |
| Refinement.RotateRefines | index.go:151-175 | rotation retires the active file's records as the next segment, keeps the store faithful to the contents with those records moved there, and changes no key's value |
| Refinement.AppendRefines | index.go:114-117 | writing a record at the write position appends it to the active file's records, and the index stays faithful |
| Refinement.PutRefines | index.go:84-120 | a `Put` of a record that fits succeeds and keeps the engine faithful to the contents with the record appended |
| Refinement.PutLookup | index.go:84-120 | after `Put` the key holds the new value and every other key keeps its value |
| Refinement.PutThenGet | index.go:84-149 | `Get` after `Put` returns the written value for that key and answers as before for every other key |
| Refinement.CompactSucceeds | index.go:189-197 | on a faithful state every value the compaction loop reads is readable |
| Refinement.CompactSurvivors | index.go:188-202 | the compaction loop over keys without repeats writes one fresh record per key, in loop order, each with the key's live value and timestamp `now`, back to back; each key is indexed in segment 0 at the end of the records before its own |
| Refinement.CompactRefines | index.go:177-210 | compaction succeeds; the only segment is the serialization of one fresh record per live key in iteration order; each key is indexed at its own record, which has that key and value; the active file is kept and no key's value changes |
| Refinement.CompactThenGet | index.go:177-210 | with the closed handle corrected (see Findings), `Get` after compaction answers every key as before |
| Refinement.RecoverRefines | index.go:212-241 | for an in-process rebuild over intact files, with `activeOffset` at the end of the written records: recovery is the last-write-wins replay of everything written, and rebuilds a faithful index in which every key points at a record of that key |
| AsWritten.RotateAsWritten | index.go:151-175 | rotation as written retires the whole mapped buffer, padding included, and leaves the index unchanged |
| AsWritten.PutAsWritten | index.go:84-120 | `Put` as written has no size check; `copy` writes as much as fits while the offset advances by the whole record |
| AsWritten.StaleIndexAfterRotation | index.go:151-175 | as written, after a write that rotates, `Get` of the earlier key returns the later key's value |
| AsWritten.TwoPutsKeepFirst | index.go:84-175 | with rotation corrected, the same two writes leave `Get` of the earlier key returning its own value |
| AsWritten.PaddedSegmentBreaksRecovery | index.go:161-174 | as written, a retired segment ending in 1 to 19 bytes of padding makes recovery fail with a truncated header |
| AsWritten.ZeroHeaderDecodes | index.go:68 | 20 zero bytes of padding decode as a valid record with an empty key and value |
| AsWritten.GetClosedSegmentAsWritten | index.go:131-146 | as written after `Compact`, a segment read decodes the `recordSize` zero bytes `make` allocated, because the segment's handle is closed |
| AsWritten.ClosedSegmentReadsNothing | index.go:177-210 | as written, after compaction `Get` of any key fails when `recordSize` is below a header and returns the empty value otherwise, whatever the key holds |
| AsWritten.OversizedRecordOverruns | index.go:107-117 | as written, a record larger than the file is cut short, the offset passes the end of the buffer, and the key's value cannot be read |

## Left out

- File system and memory mapping are not modelled: `os.OpenFile`, `Truncate`, `Mmap`, `Munmap`, `Close`, `Rename`, `Seek` and `Read`. Files are byte sequences, and the I/O errors these calls can return are not modelled.
- The read-write mutex `mu` is left out. Every operation is atomic on a pure state.
- `time.Now()` is the parameter `now`. The content of an existing `active.log` is the parameter `existing` of `Engine.InitActiveFile`.
- The map iteration order in `Compact` is the parameter `order`, which may be any duplicate-free listing of the index keys.
- Some helpers are used but not defined in `index.go`: `record.encode`, `decodeRecord`, `recordSize` and `encodeEntry`. They have no definition in `index.go`; the model uses `Codec`'s header-then-key-then-value layout for all of them. The fixed `recordSize` that `Get` reads from a segment becomes the parameter `recordSize` of `AsWritten.GetClosedSegmentAsWritten`.
- `decodeEntry` and `decodeEntryFromReader` are not modelled as written. They read the two sizes from bytes 0..8 of a record, which contradicts the 20-byte header that `Put` writes. They also return two values, but `recoverIndex` uses three. Every read goes through the single decoder `Codec.DecodeAt` instead.
- Engine.Get: on a segment, `Get` as written reads a fixed `recordSize` bytes; the model decodes from the offset to the end of the file. The model verifies the checksum on every decode. `index.go` itself shows no such check, because `decodeRecord` is not defined there.
- Engine.Get: on the active file, `mmapData[offset:]` at index.go:134 panics when the offset lies past the end of the buffer; the model returns end of file instead, since panics are not modelled.
- Engine.FileOf: `dataFiles[offset.FileID]` at index.go:137 panics for an id that names no segment; the model returns the error `NoSuchSegment` instead.
- Engine.Put: the corrected `Put` refuses a key or value of 2^32 bytes or more even when `maxFileSize` could hold it, where `uint32(len(key))` at index.go:94-95 wraps the size around; such files would be larger than 4 GiB and the wrapped header could not be decoded anyway.
- Engine.Compact: `Compact` as written discards read errors (`value, _ =`); the model propagates them. `Refinement.CompactSucceeds` shows none can occur on a faithful state.
- Engine.Compact: the type mismatch at index.go:188-201 (`FileOffset` values stored in an `Index` of `int64`) is read as the `map[string]FileOffset` that the engine's `index` field has.
- Engine.Compact: the stale `data-N` files left on disk are an I/O effect and are not modelled. The closed `tempFile` kept as the only segment is listed under Findings; the corrected `Compact` keeps the compacted file readable.
- Recovery.RecoverIndex: the two loops of `recoverIndex` are modelled as the tail-recursive scans `ScanSegment` and `ScanActive`, not as imperative loops.
- Recovery.RecoverIndex: every segment is scanned from offset 0. As written, the loop at index.go:214-217 reads from wherever the file handle stands, with no `Seek` to the start, and `Get` moves that handle (index.go:138), so the model covers a rebuild from freshly opened handles only.
- Recovery.RecoverIndex: as written, `recoverIndex` updates `db.index` entry by entry (index.go:224, index.go:236) and returns on a later read error (index.go:222, index.go:234) without undoing those updates, so a failed rebuild leaves a partly replayed index. The model returns only the error, and the partial updates are not modelled.
- Recovery.RecoverIndex: after a restart `initActiveFile` sets `activeOffset` to 0 (index.go:80), so records written to the active file before the restart are never read back; `Recovery.RecoverAfterRestart` states this loss, and `Refinement.RecoverRefines` covers only the in-process rebuild, where `activeOffset` still marks the end of the written records.
- Crc32.ChecksumIEEE: CRC-32 is defined bit by bit (reflected polynomial 0xEDB88320, register preset and final complement). Its contract states only the checksum of the empty value. Crc32.CheckValue pins down the standard check value. CRC arithmetic is out of scope: no general algebraic property of the CRC is proved, so corruption detection is stated only as "a decoded record's checksum matches its value", not as a guarantee that any particular corruption is caught.
- `KVEntry` and the `activeFile` handle carry no behaviour of their own and are not modelled.

## Findings

| source | as written | input that shows it | evidently intended | confidence | as-written member | corrected member |
|---|---|---|---|---|---|---|
| index.go:151-175 | `rotateActiveFile` leaves the index entries with `FileID: -1` as they are, so they now point into the new active file | with `maxFileSize` 22, `Put("a","b")` then `Put("c","d")`: the second write rotates and lands at offset 0, and `Get("a")` returns `"d"` | the entries of the retired file move to its new segment id | not executed | AsWritten.StaleIndexAfterRotation | Engine.Rotate, AsWritten.TwoPutsKeepFirst |
| index.go:161-174 with index.go:68 | the retired segment is the whole truncated file, including the zero padding after the last record | with `maxFileSize` 23, `Put("a","b")` then `Put("c","d")`: segment `data-0` ends in 1 byte of padding, and recovery fails with a truncated header. With 20 or more bytes of padding, a phantom empty record decodes instead, because the CRC of the empty value is 0 | only the written part, `mmapData[:activeOffset]`, becomes the segment | not executed | AsWritten.PaddedSegmentBreaksRecovery | Engine.Rotate, Refinement.RecoverRefines |
| index.go:107-117 | a record longer than `maxFileSize` is cut short by `copy`, while `activeOffset` still advances by its full length | with `maxFileSize` 20, `Put("a","b")`: only the header is written, `activeOffset` becomes 22, and `Get("a")` fails | the write is refused with an error | not executed | AsWritten.OversizedRecordOverruns | Engine.Put |
| index.go:186 with index.go:205-206 and index.go:136-146 | `defer tempFile.Close()` closes the compacted file when `Compact` returns, yet that handle becomes the only segment; later `Seek` and `Read` on it fail with the errors ignored | after `Put("a","b")` and `Compact()`, `Get("a")` decodes the zero bytes of a fresh buffer: it returns an empty value or an error, never `"b"` | the segment stays open, or is reopened, so compacted records can be read | not executed | AsWritten.ClosedSegmentReadsNothing | Refinement.CompactThenGet |
