/**
 * The on-disk record: a fixed 20-byte header of five little-endian 32-bit
 * words (Checksum, Timestamp, Expiry, KeySize, ValSize), then the key bytes,
 * then the value bytes.
 */
module Codec {
  import opened Bytes
  import opened Wrappers
  import opened Errors
  import Crc32

  const HeaderSize: nat := 20

  /** Keys are Go strings, i.e. byte strings. */
  type Key = seq<byte>

  datatype Header = Header(checksum: u32, timestamp: u32, expiry: u32, keySize: u32, valSize: u32)

  datatype Record = Record(header: Header, key: Key, value: seq<byte>)

  /** Header fields in the order they are laid out on disk. */
  function Fields(h: Header): (ws: seq<u32>)
    ensures |ws| == 5
  {
    [h.checksum, h.timestamp, h.expiry, h.keySize, h.valSize]
  }

  /** The header whose fields, in disk order, are `ws`. */
  function HeaderOf(ws: seq<u32>): (h: Header)
    requires |ws| == 5
    ensures Fields(h) == ws
  {
    Header(ws[0], ws[1], ws[2], ws[3], ws[4])
  }

  /** Words written one after the other. */
  function EncodeWords(ws: seq<u32>): (r: seq<byte>)
    ensures |r| == 4 * |ws|
    decreases |ws|
  {
    if ws == [] then [] else EncodeU32(ws[0]) + EncodeWords(ws[1..])
  }

  /** `n` words read one after the other from `buf[pos:]`. */
  function WordsAt(buf: seq<byte>, pos: nat, n: nat): (ws: seq<u32>)
    requires pos + 4 * n <= |buf|
    ensures |ws| == n
    decreases n
  {
    if n == 0 then [] else [WordAt(buf, pos)] + WordsAt(buf, pos + 4, n - 1)
  }

  /** `binary.Write(buf, binary.LittleEndian, h)`: the five fields in order. */
  function EncodeHeader(h: Header): (r: seq<byte>)
    ensures |r| == HeaderSize
  {
    EncodeWords(Fields(h))
  }

  /**
   * `binary.Read(r, binary.LittleEndian, h)` on `buf[pos:]`: end of file
   * when no byte is left, a truncation error when some but not all 20 bytes
   * are there, otherwise the five fields in order.
   */
  function DecodeHeaderAt(buf: seq<byte>, pos: nat): (r: Result<Header, Error>)
    requires pos <= |buf|
    ensures r == Err(EndOfFile) <==> pos == |buf|
    ensures r.Err? <==> |buf| - pos < HeaderSize
  {
    if pos == |buf| then Err(EndOfFile)
    else if |buf| - pos < HeaderSize then Err(Truncated)
    else Ok(HeaderOf(WordsAt(buf, pos, 5)))
  }

  /** Reading back encoded words gives the words. */
  lemma {:induction false} WordsRoundTrip(ws: seq<u32>, buf: seq<byte>, pos: nat)
    requires pos + 4 * |ws| <= |buf| && buf[pos..pos + 4 * |ws|] == EncodeWords(ws)
    ensures WordsAt(buf, pos, |ws|) == ws
    decreases |ws|
  {
    if ws != [] {
      var e := EncodeWords(ws);
      SubSlice(buf, pos, e, 0, 4);
      WordRoundTrip(ws[0], buf, pos);
      SubSlice(buf, pos, e, 4, |e|);
      assert buf[pos + 4..pos + 4 + 4 * |ws[1..]|] == EncodeWords(ws[1..]);
      WordsRoundTrip(ws[1..], buf, pos + 4);
    }
  }

  /** Any `4n` bytes are the encoding of the `n` words read from them. */
  lemma {:induction false} WordsEncode(buf: seq<byte>, pos: nat, n: nat)
    requires pos + 4 * n <= |buf|
    ensures EncodeWords(WordsAt(buf, pos, n)) == buf[pos..pos + 4 * n]
    decreases n
  {
    if n > 0 {
      var ws := WordsAt(buf, pos, n);
      assert ws[0] == WordAt(buf, pos) && ws[1..] == WordsAt(buf, pos + 4, n - 1);
      WordEncode(buf, pos);
      WordsEncode(buf, pos + 4, n - 1);
      SliceSplit(buf, pos, pos + 4, pos + 4 * n);
    }
  }

  /** Decoding an encoded header gives it back, wherever it sits. */
  lemma HeaderRoundTrip(h: Header, buf: seq<byte>, pos: nat)
    requires pos + HeaderSize <= |buf| && buf[pos..pos + HeaderSize] == EncodeHeader(h)
    ensures DecodeHeaderAt(buf, pos) == Ok(h)
  {
    WordsRoundTrip(Fields(h), buf, pos);
  }

  /** Any 20 bytes are the encoding of the header they decode to. */
  lemma HeaderEncodeDecode(buf: seq<byte>, pos: nat)
    requires pos + HeaderSize <= |buf|
    ensures DecodeHeaderAt(buf, pos).Ok?
    ensures EncodeHeader(DecodeHeaderAt(buf, pos).value) == buf[pos..pos + HeaderSize]
  {
    WordsEncode(buf, pos, 5);
  }

  /** Length of the encoded record whose header is `h`. */
  function RecordSize(h: Header): nat {
    HeaderSize + h.keySize + h.valSize
  }

  /** The header is self-describing and the checksum covers the value only. */
  predicate WellFormed(r: Record) {
    && r.header.keySize == |r.key|
    && r.header.valSize == |r.value|
    && r.header.checksum == Crc32.ChecksumIEEE(r.value)
  }

  /** `record.encode()`: header, key, value. */
  function EncodeRecord(r: Record): (b: seq<byte>)
    ensures |b| == HeaderSize + |r.key| + |r.value|
    ensures WellFormed(r) ==> |b| == RecordSize(r.header)
  {
    EncodeHeader(r.header) + r.key + r.value
  }

  /**
   * The record `Put` builds: checksum of the value alone, the caller's
   * timestamp, no expiry, and the lengths cast to `uint32` as Go does.
   */
  function NewRecord(key: Key, value: seq<byte>, now: u32): (r: Record)
    ensures r.key == key && r.value == value
    ensures |key| < U32Limit && |value| < U32Limit <==> WellFormed(r)
  {
    Record(Header(Crc32.ChecksumIEEE(value), now, 0, |key| % U32Limit, |value| % U32Limit), key, value)
  }

  /** The outcome of decoding one record: the record and the bytes it occupies, or why not. */
  datatype Decoded = Decoded(record: Record, size: nat) | Failed(error: Error)

  /**
   * The single record decoder, reading `buf[pos:]`: the fixed header first,
   * then exactly `KeySize` key bytes and `ValSize` value bytes, then the
   * checksum check.
   */
  function DecodeAt(buf: seq<byte>, pos: nat): (r: Decoded)
    requires pos <= |buf|
    ensures r == Failed(EndOfFile) <==> pos == |buf|
    ensures r.Failed? ==> r.error in {EndOfFile, Truncated, ChecksumMismatch}
    ensures r.Decoded? ==> WellFormed(r.record) && r.size == RecordSize(r.record.header) && pos + r.size <= |buf|
  {
    match DecodeHeaderAt(buf, pos)
    case Err(e) => Failed(e)
    case Ok(h) =>
      var n := RecordSize(h);
      if |buf| - pos < n then Failed(Truncated)
      else
        var key := buf[pos + HeaderSize..pos + HeaderSize + h.keySize];
        var value := buf[pos + HeaderSize + h.keySize..pos + n];
        if Crc32.ChecksumIEEE(value) != h.checksum then Failed(ChecksumMismatch)
        else Decoded(Record(h, key, value), n)
  }

  /**
   * `rec`'s header, key and value sit back to back at `pos`, each piece cut
   * out of `buf` exactly as the decoder cuts it.
   */
  predicate StoredAt(buf: seq<byte>, pos: nat, rec: Record) {
    var h := rec.header;
    && pos + RecordSize(h) <= |buf|
    && buf[pos..pos + HeaderSize] == EncodeHeader(h)
    && buf[pos + HeaderSize..pos + HeaderSize + h.keySize] == rec.key
    && buf[pos + HeaderSize + h.keySize..pos + RecordSize(h)] == rec.value
  }

  /** The pieces of a record lying at `pos` make up its encoding. */
  lemma StoredEncoded(buf: seq<byte>, pos: nat, rec: Record)
    requires StoredAt(buf, pos, rec)
    ensures buf[pos..pos + RecordSize(rec.header)] == EncodeRecord(rec)
  {
    var h := rec.header;
    SliceSplit(buf, pos, pos + HeaderSize + h.keySize, pos + RecordSize(h));
    SliceSplit(buf, pos, pos + HeaderSize, pos + HeaderSize + h.keySize);
  }

  /** The encoding of a well-formed record lying at `pos` splits into its pieces. */
  lemma EncodedStored(buf: seq<byte>, pos: nat, rec: Record)
    requires WellFormed(rec) && pos + RecordSize(rec.header) <= |buf|
    requires buf[pos..pos + RecordSize(rec.header)] == EncodeRecord(rec)
    ensures StoredAt(buf, pos, rec)
  {
    var h := rec.header;
    var e := EncodeRecord(rec);
    var k := HeaderSize + h.keySize;
    SubSlice(buf, pos, e, 0, HeaderSize);
    SubSlice(buf, pos, e, HeaderSize, k);
    SubSlice(buf, pos, e, k, |e|);
    assert e[..HeaderSize] == EncodeHeader(h);
    assert e[HeaderSize..k] == rec.key;
    assert e[k..] == rec.value;
  }

  /** A well-formed record lying at `pos` decodes there. */
  lemma DecodeStored(buf: seq<byte>, pos: nat, rec: Record)
    requires WellFormed(rec) && StoredAt(buf, pos, rec)
    ensures DecodeAt(buf, pos) == Decoded(rec, RecordSize(rec.header))
  {
    HeaderRoundTrip(rec.header, buf, pos);
    DecodeAtHeader(buf, pos, rec);
  }

  /** A header that reads back, room for the record, and a matching checksum: the decoder returns the pieces it cut. */
  lemma DecodeAtOk(buf: seq<byte>, pos: nat, h: Header)
    requires pos + RecordSize(h) <= |buf| && DecodeHeaderAt(buf, pos) == Ok(h)
    requires Crc32.ChecksumIEEE(buf[pos + HeaderSize + h.keySize..pos + RecordSize(h)]) == h.checksum
    ensures DecodeAt(buf, pos) == Decoded(Record(h, buf[pos + HeaderSize..pos + HeaderSize + h.keySize], buf[pos + HeaderSize + h.keySize..pos + RecordSize(h)]), RecordSize(h))
  {
  }

  /** Once the header at `pos` reads back as `rec`'s, the rest of `rec` in place makes the decoder return it. */
  lemma DecodeAtHeader(buf: seq<byte>, pos: nat, rec: Record)
    requires WellFormed(rec) && pos + RecordSize(rec.header) <= |buf|
    requires DecodeHeaderAt(buf, pos) == Ok(rec.header)
    requires buf[pos + HeaderSize..pos + HeaderSize + rec.header.keySize] == rec.key
    requires buf[pos + HeaderSize + rec.header.keySize..pos + RecordSize(rec.header)] == rec.value
    ensures DecodeAt(buf, pos) == Decoded(rec, RecordSize(rec.header))
  {
    DecodeAtOk(buf, pos, rec.header);
  }

  /** A decoded record has the header read at `pos` and the key and value bytes that follow it. */
  lemma DecodedParts(buf: seq<byte>, pos: nat)
    requires pos <= |buf| && DecodeAt(buf, pos).Decoded?
    ensures var h := DecodeAt(buf, pos).record.header;
      && DecodeHeaderAt(buf, pos) == Ok(h) && pos + RecordSize(h) <= |buf|
      && DecodeAt(buf, pos).record.key == buf[pos + HeaderSize..pos + HeaderSize + h.keySize]
      && DecodeAt(buf, pos).record.value == buf[pos + HeaderSize + h.keySize..pos + RecordSize(h)]
  {
  }

  /** A decoded record lies at `pos`. */
  lemma DecodedStored(buf: seq<byte>, pos: nat)
    requires pos <= |buf| && DecodeAt(buf, pos).Decoded?
    ensures StoredAt(buf, pos, DecodeAt(buf, pos).record)
  {
    DecodedParts(buf, pos);
    HeaderEncodeDecode(buf, pos);
  }

  /** A decoded record occupies exactly the bytes of its own encoding. */
  lemma DecodeAtSound(buf: seq<byte>, pos: nat)
    requires pos <= |buf| && DecodeAt(buf, pos).Decoded?
    ensures var d := DecodeAt(buf, pos);
      buf[pos..pos + d.size] == EncodeRecord(d.record)
  {
    DecodedStored(buf, pos);
    StoredEncoded(buf, pos, DecodeAt(buf, pos).record);
  }

  /** Decoding an encoded well-formed record gives it back, wherever it sits. */
  lemma RecordRoundTrip(rec: Record, buf: seq<byte>, pos: nat)
    requires WellFormed(rec)
    requires pos + RecordSize(rec.header) <= |buf|
    requires buf[pos..pos + RecordSize(rec.header)] == EncodeRecord(rec)
    ensures DecodeAt(buf, pos) == Decoded(rec, RecordSize(rec.header))
  {
    EncodedStored(buf, pos, rec);
    DecodeStored(buf, pos, rec);
  }

  /** What `Put` writes is read back unchanged, wherever it lands. */
  lemma NewRecordRoundTrip(key: Key, value: seq<byte>, now: u32, buf: seq<byte>, pos: nat)
    requires |key| < U32Limit && |value| < U32Limit
    requires var e := EncodeRecord(NewRecord(key, value, now));
      pos + |e| <= |buf| && buf[pos..pos + |e|] == e
    ensures var rec := NewRecord(key, value, now);
      && rec.header == Header(Crc32.ChecksumIEEE(value), now, 0, |key|, |value|)
      && DecodeAt(buf, pos) == Decoded(rec, HeaderSize + |key| + |value|)
  {
    RecordRoundTrip(NewRecord(key, value, now), buf, pos);
  }
}
