/**
 * What the engine stores, seen as a key-value map: the records of every
 * file, in the order they were appended, and the value the last write of
 * each key left behind. `Represents(db, c)` ties an engine state to such
 * contents, and every operation is shown to act on the contents as a
 * key-value store would.
 */
module Refinement {
  import opened Bytes
  import opened Wrappers
  import opened Errors
  import opened Codec
  import opened Layout
  import opened Log
  import opened Engine
  import opened Recovery

  /** The records of each segment, by segment id, and of the active file. */
  datatype Contents = Contents(segments: seq<seq<Record>>, active: seq<Record>)

  /** The records of all segments in id order, each located in its segment. */
  function SegmentsHistory(segments: seq<seq<Record>>): seq<Located>
    decreases |segments|
  {
    if segments == [] then []
    else
      var n := |segments| - 1;
      SegmentsHistory(segments[..n]) + Tag(n, Entries(segments[n]))
  }

  /** One more segment appends its tagged entries to the segments' history. */
  lemma SegmentsHistorySnoc(segments: seq<seq<Record>>, segment: seq<Record>)
    ensures SegmentsHistory(segments + [segment]) == SegmentsHistory(segments) + Tag(|segments|, Entries(segment))
  {
    assert (segments + [segment])[..|segments|] == segments;
  }

  /** Every record ever written and still on disk, oldest first. */
  function History(c: Contents): seq<Located> {
    SegmentsHistory(c.segments) + Tag(ActiveFileId, Entries(c.active))
  }

  /** The key-value view: the value of the last write of `key`, if any. */
  function Lookup(c: Contents, key: Key): Option<seq<byte>> {
    match LastEntry(History(c), key)
    case None => None
    case Some(l) => Some(l.record.value)
  }

  /** The records of the file with id `id`. */
  function FileRecords(c: Contents, id: int): (r: Option<seq<Record>>)
    ensures r.Some? <==> id == ActiveFileId || 0 <= id < |c.segments|
  {
    if id == ActiveFileId then Some(c.active)
    else if 0 <= id < |c.segments| then Some(c.segments[id])
    else None
  }

  /** The record that starts at `loc`, if one does. */
  function Where(c: Contents, loc: FileOffset): Option<Record> {
    match FileRecords(c, loc.fileId)
    case None => None
    case Some(rs) => Find(Entries(rs), loc.offset)
  }

  /** The value of the record that starts at `loc`, if one does. */
  function Stored(c: Contents, loc: FileOffset): Option<seq<byte>> {
    match Where(c, loc)
    case None => None
    case Some(r) => Some(r.value)
  }

  /** The key of the record that starts at `loc`, if one does. */
  function KeyAt(c: Contents, loc: FileOffset): Option<Key> {
    match Where(c, loc)
    case None => None
    case Some(r) => Some(r.key)
  }

  /** Every file's records are well-formed. */
  predicate Sound(c: Contents) {
    && (forall i :: 0 <= i < |c.segments| ==> AllWellFormed(c.segments[i]))
    && AllWellFormed(c.active)
  }

  /**
   * The engine's files hold exactly the records of `c`: each segment is the
   * serialization of its records, and so is the written part of the active
   * file.
   */
  predicate Laid(db: Bitcask, c: Contents) {
    && Shaped(db)
    && Sound(c)
    && |db.dataFiles| == |c.segments|
    && (forall i :: 0 <= i < |c.segments| ==> db.dataFiles[i] == Serialize(c.segments[i]))
    && db.activeOffset == |Serialize(c.active)|
    && db.mmapData[..db.activeOffset] == Serialize(c.active)
  }

  /**
   * The index holds exactly the keys written, each pointing at a record of
   * that key which holds the key's last value.
   */
  ghost predicate Indexed(index: map<Key, FileOffset>, c: Contents) {
    && (forall k :: k in index <==> Lookup(c, k).Some?)
    && (forall k :: k in index ==> KeyAt(c, index[k]) == Some(k) && Stored(c, index[k]) == Lookup(c, k))
  }

  ghost predicate Represents(db: Bitcask, c: Contents) {
    Laid(db, c) && Indexed(db.index, c)
  }

  /** A record of a file's entries is found at its location in that file. */
  lemma TaggedFound(id: int, rs: seq<Record>, l: Located)
    requires l in Tag(id, Entries(rs))
    ensures l.loc.fileId == id && Find(Entries(rs), l.loc.offset) == Some(l.record)
  {
    var j :| 0 <= j < |rs| && Tag(id, Entries(rs))[j] == l;
    EntriesAt(rs, j);
    FindEntry(rs, j);
  }

  /** A record of the segments' history is found at its location, in an existing segment. */
  lemma {:induction false} SegmentsFound(segments: seq<seq<Record>>, l: Located)
    requires l in SegmentsHistory(segments)
    ensures 0 <= l.loc.fileId < |segments|
    ensures Find(Entries(segments[l.loc.fileId]), l.loc.offset) == Some(l.record)
    decreases |segments|
  {
    var n := |segments| - 1;
    if l in Tag(n, Entries(segments[n])) {
      TaggedFound(n, segments[n], l);
    } else {
      SegmentsFound(segments[..n], l);
    }
  }

  /** Every record of the history is where its location says. */
  lemma HistoryFound(c: Contents, l: Located)
    requires l in History(c)
    ensures Where(c, l.loc) == Some(l.record)
  {
    if l in Tag(ActiveFileId, Entries(c.active)) {
      TaggedFound(ActiveFileId, c.active, l);
    } else {
      SegmentsFound(c.segments, l);
    }
  }

  /** A record found in a sound file is well-formed. */
  lemma WhereWellFormed(c: Contents, loc: FileOffset)
    requires Sound(c) && Where(c, loc).Some?
    ensures WellFormed(Where(c, loc).value)
  {
    var rs := FileRecords(c, loc.fileId).value;
    var j := FindIsEntry(rs, loc.offset);
  }

  /** Reading a location the contents hold a record at yields that record's value. */
  lemma ValueAtStored(db: Bitcask, c: Contents, loc: FileOffset)
    requires Laid(db, c) && Where(c, loc).Some?
    ensures ValueAt(db, loc) == Ok(Where(c, loc).value.value)
  {
    var rs := FileRecords(c, loc.fileId).value;
    if loc.fileId == ActiveFileId {
      DecodeFound(db.mmapData, rs, loc.offset);
    } else {
      var file := db.dataFiles[loc.fileId];
      assert file[..|Serialize(rs)|] == Serialize(rs);
      DecodeFound(file, rs, loc.offset);
    }
  }

  /** `Get` answers as the key-value view does. */
  lemma GetRefines(db: Bitcask, c: Contents, key: Key)
    requires Represents(db, c)
    ensures Get(db, key) == if Lookup(c, key).Some? then Ok(Lookup(c, key).value) else Err(KeyNotFound)
  {
    if key in db.index {
      ValueAtStored(db, c, db.index[key]);
    }
  }

  /** A fresh engine holds nothing. */
  lemma EmptyRepresents(maxSize: nat)
    ensures Represents(Empty(maxSize), Contents([], []))
  {
    assert Zeros(maxSize)[..0] == [];
  }

  /** Retiring the active file as the next segment changes no key's value. */
  lemma LookupRotate(segments: seq<seq<Record>>, active: seq<Record>, key: Key)
    ensures Lookup(Contents(segments + [active], []), key) == Lookup(Contents(segments, active), key)
  {
    var n := |segments|;
    SegmentsHistorySnoc(segments, active);
    var h := SegmentsHistory(segments);
    assert History(Contents(segments + [active], [])) == h + Tag(n, Entries(active));
    LastEntryAppend(h, Tag(n, Entries(active)), key);
    LastEntryAppend(h, Tag(ActiveFileId, Entries(active)), key);
    LastEntryRetag(n, ActiveFileId, Entries(active), key);
  }

  /** After a rotation, a repointed location names the same record in the new segment. */
  lemma WhereRepoint(c: Contents, loc: FileOffset)
    requires Where(c, loc).Some?
    ensures var moved := if loc.fileId == ActiveFileId then FileOffset(|c.segments|, loc.offset) else loc;
      Where(Contents(c.segments + [c.active], []), moved) == Where(c, loc)
  {
  }

  /** `Rotate` keeps the files laid out: the active file's records become the last segment's. */
  lemma RotateLaid(db: Bitcask, c: Contents)
    requires Laid(db, c)
    ensures Laid(Rotate(db), Contents(c.segments + [c.active], []))
  {
    var r := Rotate(db);
    var segments := c.segments + [c.active];
    forall i | 0 <= i < |segments|
      ensures r.dataFiles[i] == Serialize(segments[i])
    {
      if i < |c.segments| {
        assert r.dataFiles[i] == db.dataFiles[i];
      }
    }
  }

  /** `Rotate` keeps the index faithful to the key-value view. */
  lemma RotateIndexed(db: Bitcask, c: Contents)
    requires Represents(db, c)
    ensures Indexed(Rotate(db).index, Contents(c.segments + [c.active], []))
  {
    var c2 := Contents(c.segments + [c.active], []);
    var index := Rotate(db).index;
    forall k
      ensures k in index <==> Lookup(c2, k).Some?
      ensures k in index ==> KeyAt(c2, index[k]) == Some(k) && Stored(c2, index[k]) == Lookup(c2, k)
    {
      LookupRotate(c.segments, c.active, k);
      if k in index {
        WhereRepoint(c, db.index[k]);
      }
    }
  }

  /** `Rotate` retires the active file as the next segment and changes no key's value. */
  lemma RotateRefines(db: Bitcask, c: Contents)
    requires Represents(db, c)
    ensures Represents(Rotate(db), Contents(c.segments + [c.active], []))
    ensures forall k :: Lookup(Contents(c.segments + [c.active], []), k) == Lookup(c, k)
  {
    RotateLaid(db, c);
    RotateIndexed(db, c);
    forall k
      ensures Lookup(Contents(c.segments + [c.active], []), k) == Lookup(c, k)
    {
      LookupRotate(c.segments, c.active, k);
    }
  }

  /** Appending a record to the active file appends it, located at the old end of that file, to the history. */
  lemma HistoryAppend(segments: seq<seq<Record>>, active: seq<Record>, rec: Record)
    ensures History(Contents(segments, active + [rec])) ==
      History(Contents(segments, active)) + [Located(FileOffset(ActiveFileId, |Serialize(active)|), rec)]
  {
    SerializeSnoc(active, rec);
    TagSnoc(ActiveFileId, Entries(active), Entry(|Serialize(active)|, rec));
  }

  /** Appending a record to the active file makes it its key's last write. */
  lemma LookupAppend(segments: seq<seq<Record>>, active: seq<Record>, rec: Record, key: Key)
    ensures Lookup(Contents(segments, active + [rec]), key) ==
      if key == rec.key then Some(rec.value) else Lookup(Contents(segments, active), key)
  {
    var l := Located(FileOffset(ActiveFileId, |Serialize(active)|), rec);
    HistoryAppend(segments, active, rec);
    LastEntryAppend(History(Contents(segments, active)), [l], key);
    assert [l][..0] == [];
  }

  /** The records a file already holds stay where they are when a record is appended behind them. */
  lemma FindKept(rs: seq<Record>, rec: Record, offset: nat)
    requires Find(Entries(rs), offset).Some?
    ensures Find(Entries(rs + [rec]), offset) == Find(Entries(rs), offset)
  {
    var j := FoundBytes(rs, offset);
    FindSnoc(rs, rec, offset);
  }

  /** Locations in the contents keep their records when a record is appended to the active file. */
  lemma WhereAppend(c: Contents, rec: Record, loc: FileOffset)
    requires Where(c, loc).Some?
    ensures Where(Contents(c.segments, c.active + [rec]), loc) == Where(c, loc)
  {
    if loc.fileId == ActiveFileId {
      FindKept(c.active, rec, loc.offset);
    }
  }

  /** `Append` keeps the files laid out, with the record added to the active file's records. */
  lemma AppendLaid(db: Bitcask, c: Contents, rec: Record)
    requires Laid(db, c) && WellFormed(rec)
    requires db.activeOffset + |EncodeRecord(rec)| <= db.maxFileSize
    ensures Laid(Append(db, rec.key, EncodeRecord(rec)), Contents(c.segments, c.active + [rec]))
  {
    var r := Append(db, rec.key, EncodeRecord(rec));
    SerializeSnoc(c.active, rec);
    assert r.mmapData[..r.activeOffset] == r.mmapData[..db.activeOffset] + r.mmapData[db.activeOffset..r.activeOffset];
  }

  /** `Append` keeps the index faithful, pointing the record's key at the record. */
  lemma AppendIndexed(db: Bitcask, c: Contents, rec: Record)
    requires Represents(db, c) && WellFormed(rec)
    requires db.activeOffset + |EncodeRecord(rec)| <= db.maxFileSize
    ensures Indexed(Append(db, rec.key, EncodeRecord(rec)).index, Contents(c.segments, c.active + [rec]))
  {
    var c2 := Contents(c.segments, c.active + [rec]);
    var index := Append(db, rec.key, EncodeRecord(rec)).index;
    forall k
      ensures k in index <==> Lookup(c2, k).Some?
      ensures k in index ==> KeyAt(c2, index[k]) == Some(k) && Stored(c2, index[k]) == Lookup(c2, k)
    {
      LookupAppend(c.segments, c.active, rec, k);
      if k == rec.key {
        FindSnoc(c.active, rec, db.activeOffset);
      } else if k in index {
        WhereAppend(c, rec, db.index[k]);
      }
    }
  }

  /** Writing a well-formed record at the write position adds it to the active file's records. */
  lemma AppendRefines(db: Bitcask, c: Contents, rec: Record)
    requires Represents(db, c) && WellFormed(rec)
    requires db.activeOffset + |EncodeRecord(rec)| <= db.maxFileSize
    ensures Represents(Append(db, rec.key, EncodeRecord(rec)), Contents(c.segments, c.active + [rec]))
  {
    AppendLaid(db, c, rec);
    AppendIndexed(db, c, rec);
  }

  /** The contents after `Put`: the new record ends the active file's records, after a rotation when `Put` rotates. */
  function PutContents(db: Bitcask, c: Contents, key: Key, value: seq<byte>, now: u32): Contents {
    var rec := NewRecord(key, value, now);
    if MustRotate(db, EncodeRecord(rec)) then Contents(c.segments + [c.active], [rec])
    else Contents(c.segments, c.active + [rec])
  }

  /** A `Put` that succeeds writes one record for the key behind the existing ones. */
  lemma PutRefines(db: Bitcask, c: Contents, key: Key, value: seq<byte>, now: u32)
    requires Represents(db, c) && Fits(key, value, db.maxFileSize)
    ensures Put(db, key, value, now).Ok?
    ensures Represents(Put(db, key, value, now).value, PutContents(db, c, key, value, now))
  {
    var rec := NewRecord(key, value, now);
    if MustRotate(db, EncodeRecord(rec)) {
      RotateRefines(db, c);
      assert [] + [rec] == [rec];
      AppendRefines(Rotate(db), Contents(c.segments + [c.active], []), rec);
    } else {
      AppendRefines(db, c, rec);
    }
  }

  /** After `Put`, the key holds the new value and every other key keeps its value. */
  lemma PutLookup(db: Bitcask, c: Contents, key: Key, value: seq<byte>, now: u32, k: Key)
    ensures Lookup(PutContents(db, c, key, value, now), k) == if k == key then Some(value) else Lookup(c, k)
  {
    var rec := NewRecord(key, value, now);
    if MustRotate(db, EncodeRecord(rec)) {
      LookupRotate(c.segments, c.active, k);
      assert [] + [rec] == [rec];
      LookupAppend(c.segments + [c.active], [], rec, k);
    } else {
      LookupAppend(c.segments, c.active, rec, k);
    }
  }

  /** A value that fits is stored: `Get` returns it afterwards, and answers for every other key as before. */
  lemma PutThenGet(db: Bitcask, c: Contents, key: Key, value: seq<byte>, now: u32, k: Key)
    requires Represents(db, c) && Fits(key, value, db.maxFileSize)
    ensures Put(db, key, value, now).Ok?
    ensures Get(Put(db, key, value, now).value, k) == if k == key then Ok(value) else Get(db, k)
  {
    PutRefines(db, c, key, value, now);
    PutLookup(db, c, key, value, now, k);
    GetRefines(db, c, k);
    GetRefines(Put(db, key, value, now).value, PutContents(db, c, key, value, now), k);
  }

  /** The key-value view keeps the key's records well-formed, so its key and value fit a header. */
  lemma LookupWellFormed(c: Contents, key: Key)
    requires Sound(c) && Lookup(c, key).Some?
    ensures |key| < U32Limit && |Lookup(c, key).value| < U32Limit
  {
    var l := LastEntry(History(c), key).value;
    HistoryFound(c, l);
    WhereWellFormed(c, l.loc);
  }

  /** The index entry of a key leads to the key's last value. */
  lemma IndexedValue(db: Bitcask, c: Contents, key: Key)
    requires Represents(db, c) && key in db.index
    ensures ValueAt(db, db.index[key]) == Ok(Lookup(c, key).value)
    ensures |key| < U32Limit && |Lookup(c, key).value| < U32Limit
  {
    ValueAtStored(db, c, db.index[key]);
    LookupWellFormed(c, key);
  }

  /** The last records of `sv` for each key of `order` hold the key's value in `c`, and `sv` holds no other key. */
  ghost predicate Survivors(sv: seq<Record>, order: seq<Key>, c: Contents) {
    forall k :: Lookup(Contents([], sv), k) == if k in order then Lookup(c, k) else None
  }

  /** `sv` is one fresh record per key of `order`, in that order, each holding the key's value in `c` and stamped `now`. */
  predicate Rewritten(sv: seq<Record>, order: seq<Key>, c: Contents, now: u32) {
    && |sv| == |order|
    && forall i :: 0 <= i < |order| ==> Lookup(c, order[i]).Some? && sv[i] == NewRecord(order[i], Lookup(c, order[i]).value, now)
  }

  /** Each key of `order` is indexed in segment 0 at the end of the records `sv` written before its own. */
  predicate PlacedAt(index: map<Key, FileOffset>, order: seq<Key>, sv: seq<Record>) {
    && |sv| == |order|
    && forall i :: 0 <= i < |order| ==> order[i] in index && index[order[i]] == FileOffset(0, |Serialize(sv[..i])|)
  }

  /** The record at `offset` of a file holding `rs` has key `key` and value `value`. */
  predicate HoldsAt(rs: seq<Record>, offset: nat, key: Key, value: seq<byte>) {
    var f := Find(Entries(rs), offset);
    f.Some? && f.value.key == key && f.value.value == value
  }

  /** Every entry of `index` leads, within a file holding `sv`, to a record of its key with the key's value in `c`, which it has. */
  ghost predicate LeadsTo(index: map<Key, FileOffset>, sv: seq<Record>, c: Contents) {
    forall k :: k in index ==> Lookup(c, k).Some? && HoldsAt(sv, index[k].offset, k, Lookup(c, k).value)
  }

  /**
   * The compacted file written so far is the serialization of `sv`, the
   * rewritten records of `order`, and `index` places each key at its own
   * record.
   */
  ghost predicate CompactedSoFar(file: seq<byte>, index: map<Key, FileOffset>, sv: seq<Record>, order: seq<Key>, c: Contents, now: u32) {
    && file == Serialize(sv) && AllWellFormed(sv) && Survivors(sv, order, c)
    && Rewritten(sv, order, c, now) && PlacedAt(index, order, sv)
  }

  /** One pass of the compaction loop: the record for `key` is appended to the compacted file and indexed. */
  lemma CompactStep(db: Bitcask, init: seq<Key>, key: Key, now: u32)
    requires forall k :: k in init + [key] ==> k in db.index
    requires CompactFrom(db, init, now).Ok? && ValueAt(db, db.index[key]).Ok?
    ensures var c := CompactFrom(db, init, now).value;
      CompactFrom(db, init + [key], now) ==
        Ok(Compacted(c.file + EncodeRecord(NewRecord(key, ValueAt(db, db.index[key]).value, now)), c.index[key := FileOffset(0, |c.file|)]))
  {
    var order := init + [key];
    assert order[..|order| - 1] == init;
  }

  /** Appending the record for one more key of the order keeps the survivors' values right. */
  lemma SurvivorsSnoc(sv: seq<Record>, order: seq<Key>, c: Contents, rec: Record)
    requires Survivors(sv, order, c) && Lookup(c, rec.key) == Some(rec.value)
    ensures Survivors(sv + [rec], order + [rec.key], c)
  {
    forall k
      ensures Lookup(Contents([], sv + [rec]), k) == if k in order + [rec.key] then Lookup(c, k) else None
    {
      SurvivorSnoc(sv, order, c, rec, k);
    }
  }

  /** The survivors' value of one key after appending the record for one more key of the order. */
  lemma SurvivorSnoc(sv: seq<Record>, order: seq<Key>, c: Contents, rec: Record, k: Key)
    requires Lookup(Contents([], sv), k) == if k in order then Lookup(c, k) else None
    requires Lookup(c, rec.key) == Some(rec.value)
    ensures Lookup(Contents([], sv + [rec]), k) == if k in order + [rec.key] then Lookup(c, k) else None
  {
    LookupAppend([], sv, rec, k);
    assert k in order + [rec.key] <==> k in order || k == rec.key;
  }

  /** The rewritten record of one more key extends the rewritten records. */
  lemma RewrittenSnoc(sv: seq<Record>, order: seq<Key>, c: Contents, now: u32, key: Key)
    requires Rewritten(sv, order, c, now) && Lookup(c, key).Some?
    ensures Rewritten(sv + [NewRecord(key, Lookup(c, key).value, now)], order + [key], c, now)
  {
  }

  /** Indexing one more key, new to the order, at the end of the file keeps every key placed at its own record. */
  lemma PlacedSnoc(index: map<Key, FileOffset>, order: seq<Key>, sv: seq<Record>, key: Key, rec: Record)
    requires PlacedAt(index, order, sv) && key !in order
    ensures PlacedAt(index[key := FileOffset(0, |Serialize(sv)|)], order + [key], sv + [rec])
  {
    var order2, sv2 := order + [key], sv + [rec];
    forall i | 0 <= i < |order2|
      ensures sv2[..i] == if i < |order| then sv[..i] else sv
      ensures order2[i] == if i < |order| then order[i] else key
    {
    }
  }

  /** Writing the rewritten record of one more key, new to the order, keeps the compaction invariant. */
  lemma CompactedSnoc(file: seq<byte>, index: map<Key, FileOffset>, sv: seq<Record>, order: seq<Key>, c: Contents, now: u32, key: Key)
    requires CompactedSoFar(file, index, sv, order, c, now) && key !in order
    requires Lookup(c, key).Some? && WellFormed(NewRecord(key, Lookup(c, key).value, now))
    ensures var rec := NewRecord(key, Lookup(c, key).value, now);
      CompactedSoFar(file + EncodeRecord(rec), index[key := FileOffset(0, |file|)], sv + [rec], order + [key], c, now)
  {
    var rec := NewRecord(key, Lookup(c, key).value, now);
    SerializeSnoc(sv, rec);
    SurvivorsSnoc(sv, order, c, rec);
    RewrittenSnoc(sv, order, c, now, key);
    PlacedSnoc(index, order, sv, key, rec);
  }

  /** Dropping the last key of a list without repeats leaves a list without repeats that lacks it. */
  lemma DistinctInit(order: seq<Key>)
    requires order != [] && Distinct(order)
    ensures Distinct(order[..|order| - 1]) && order[|order| - 1] !in order[..|order| - 1]
  {
    var init := order[..|order| - 1];
    assert forall i :: 0 <= i < |init| ==> init[i] == order[i];
  }

  /**
   * The compaction loop over keys `order` without repeats writes the file
   * `Serialize(sv)`, where `sv` holds one fresh record per key of `order`,
   * in that order, with the key's live value and the time `now`; the new
   * index places each key at its record, and the last record of each key
   * holds its live value.
   */
  lemma {:induction false} CompactSurvivors(db: Bitcask, c: Contents, order: seq<Key>, now: u32) returns (sv: seq<Record>)
    requires Represents(db, c) && Distinct(order) && forall k :: k in order ==> k in db.index
    requires CompactFrom(db, order, now).Ok?
    ensures CompactedSoFar(CompactFrom(db, order, now).value.file, CompactFrom(db, order, now).value.index, sv, order, c, now)
    decreases |order|
  {
    if order == [] {
      sv := [];
      assert History(Contents([], [])) == [];
    } else {
      var init := order[..|order| - 1];
      var key := order[|order| - 1];
      SplitLast(order);
      DistinctInit(order);
      var sv0 := CompactSurvivors(db, c, init, now);
      IndexedValue(db, c, key);
      CompactStep(db, init, key, now);
      var cc := CompactFrom(db, init, now).value;
      CompactedSnoc(cc.file, cc.index, sv0, init, c, now, key);
      sv := sv0 + [NewRecord(key, Lookup(c, key).value, now)];
    }
  }

  /** An index that places each key at its rewritten record leads every key to its live value. */
  lemma PlacedLeadsTo(index: map<Key, FileOffset>, order: seq<Key>, sv: seq<Record>, c: Contents, now: u32)
    requires Rewritten(sv, order, c, now) && PlacedAt(index, order, sv)
    requires forall k :: k in index ==> k in order
    ensures LeadsTo(index, sv, c)
  {
    forall k | k in index
      ensures Lookup(c, k).Some? && HoldsAt(sv, index[k].offset, k, Lookup(c, k).value)
    {
      var i :| 0 <= i < |order| && order[i] == k;
      FindEntry(sv, i);
    }
  }

  /** On a faithful state the compaction loop never fails: every key it reads leads to a readable record. */
  lemma {:induction false} CompactSucceeds(db: Bitcask, c: Contents, order: seq<Key>, now: u32)
    requires Represents(db, c) && forall k :: k in order ==> k in db.index
    ensures CompactFrom(db, order, now).Ok?
    decreases |order|
  {
    if order != [] {
      var init := order[..|order| - 1];
      var key := order[|order| - 1];
      SplitLast(order);
      CompactSucceeds(db, c, init, now);
      IndexedValue(db, c, key);
      CompactStep(db, init, key, now);
    }
  }

  /** The history of contents with one segment is that segment's entries, then the active file's. */
  lemma SoleSegmentHistory(sv: seq<Record>, active: seq<Record>)
    ensures History(Contents([sv], active)) == Tag(0, Entries(sv)) + Tag(ActiveFileId, Entries(active))
  {
    SegmentsHistorySnoc([], sv);
    assert [] + [sv] == [sv];
    assert [] + Tag(0, Entries(sv)) == Tag(0, Entries(sv));
  }

  /** The history of contents without segments is the active file's entries. */
  lemma NoSegmentHistory(active: seq<Record>)
    ensures History(Contents([], active)) == Tag(ActiveFileId, Entries(active))
  {
    assert [] + Tag(ActiveFileId, Entries(active)) == Tag(ActiveFileId, Entries(active));
  }

  /** With the survivors as the only segment, a key's value comes from the active file when it was written there, and from the survivors otherwise. */
  lemma CompactLookup(c: Contents, sv: seq<Record>, key: Key)
    requires Lookup(Contents([], sv), key) == Lookup(c, key)
    ensures Lookup(Contents([sv], c.active), key) == Lookup(c, key)
  {
    var active := Tag(ActiveFileId, Entries(c.active));
    SoleSegmentHistory(sv, c.active);
    NoSegmentHistory(sv);
    LastEntryAppend(Tag(0, Entries(sv)), active, key);
    LastEntryAppend(SegmentsHistory(c.segments), active, key);
    LastEntryRetag(0, ActiveFileId, Entries(sv), key);
  }

  /** The compacted file, as the only segment, and the untouched active file are laid out as the contents say. */
  lemma CompactLaid(db: Bitcask, c: Contents, order: seq<Key>, now: u32, sv: seq<Record>)
    requires Laid(db, c) && IsKeyOrder(order, db.index)
    requires CompactFrom(db, order, now).Ok? && CompactFrom(db, order, now).value.file == Serialize(sv) && AllWellFormed(sv)
    ensures Compact(db, order, now).Ok?
    ensures Laid(Compact(db, order, now).value, Contents([sv], c.active))
  {
    assert Compact(db, order, now).value.dataFiles == [Serialize(sv)];
  }

  /** An index over the same keys whose entries all lead into the survivors, as segment 0, is faithful to the compacted contents. */
  lemma SurvivorsIndexed(before: map<Key, FileOffset>, index: map<Key, FileOffset>, c: Contents, sv: seq<Record>)
    requires Indexed(before, c) && index.Keys == before.Keys
    requires forall k :: k in index ==> index[k].fileId == 0
    requires LeadsTo(index, sv, c)
    requires forall k :: Lookup(Contents([sv], c.active), k) == Lookup(c, k)
    ensures Indexed(index, Contents([sv], c.active))
  {
    var c2 := Contents([sv], c.active);
    forall k
      ensures k in index <==> Lookup(c2, k).Some?
      ensures k in index ==> KeyAt(c2, index[k]) == Some(k) && Stored(c2, index[k]) == Lookup(c2, k)
    {
      assert k in index <==> k in before;
    }
  }

  /**
   * `Compact` replaces all segments by one holding, for every live key in
   * the iteration order, a fresh record with the key's value stamped `now`;
   * the new index points each key at its record there, the active file is
   * kept, and no key's value changes.
   */
  lemma CompactRefines(db: Bitcask, c: Contents, order: seq<Key>, now: u32) returns (sv: seq<Record>)
    requires Represents(db, c) && IsKeyOrder(order, db.index)
    ensures Compact(db, order, now).Ok?
    ensures Rewritten(sv, order, c, now)
    ensures Compact(db, order, now).value.dataFiles == [Serialize(sv)]
    ensures PlacedAt(Compact(db, order, now).value.index, order, sv)
    ensures Represents(Compact(db, order, now).value, Contents([sv], c.active))
    ensures forall k :: Lookup(Contents([sv], c.active), k) == Lookup(c, k)
  {
    CompactSucceeds(db, c, order, now);
    sv := CompactSurvivors(db, c, order, now);
    var index := Compact(db, order, now).value.index;
    forall k
      ensures Lookup(Contents([sv], c.active), k) == Lookup(c, k)
    {
      CompactLookup(c, sv, k);
    }
    CompactLaid(db, c, order, now, sv);
    PlacedLeadsTo(index, order, sv, c, now);
    SurvivorsIndexed(db.index, index, c, sv);
  }

  /** Compaction changes no answer of `Get`. */
  lemma CompactThenGet(db: Bitcask, c: Contents, order: seq<Key>, now: u32, k: Key)
    requires Represents(db, c) && IsKeyOrder(order, db.index)
    ensures Compact(db, order, now).Ok?
    ensures Get(Compact(db, order, now).value, k) == Get(db, k)
  {
    var sv := CompactRefines(db, c, order, now);
    GetRefines(db, c, k);
    GetRefines(Compact(db, order, now).value, Contents([sv], c.active), k);
  }

  /** Scanning the segments, each the serialization of well-formed records, reads back the segments' history. */
  lemma {:induction false} ScanSegmentsContents(files: seq<seq<byte>>, segments: seq<seq<Record>>)
    requires |files| == |segments|
    requires forall i :: 0 <= i < |segments| ==> AllWellFormed(segments[i]) && files[i] == Serialize(segments[i])
    ensures ScanSegments(files) == Ok(SegmentsHistory(segments))
    decreases |files|
  {
    if files != [] {
      var n := |files| - 1;
      ScanSegmentsContents(files[..n], segments[..n]);
      ScanSerialized(segments[n]);
    }
  }

  /** Everything recovery reads from laid-out files is the history of their contents. */
  lemma RecoveredHistory(db: Bitcask, c: Contents)
    requires Laid(db, c)
    ensures RecoveredLog(db) == Ok(History(c))
  {
    ScanSegmentsContents(db.dataFiles, c.segments);
    ScanActiveSerialized(db.mmapData, c.active);
  }

  /**
   * Recovery over laid-out files rebuilds a faithful index, starting from an
   * index that holds no key the contents lack (the empty index after a
   * restart, or a faithful one): every key points at its last write.
   */
  lemma RecoverRefines(db: Bitcask, c: Contents)
    requires Laid(db, c) && forall k :: k in db.index ==> Lookup(c, k).Some?
    ensures RecoverIndex(db) == Ok(Replay(db.index, History(c)))
    ensures Represents(db.(index := RecoverIndex(db).value), c)
  {
    RecoveredHistory(db, c);
    var index := Replay(db.index, History(c));
    forall k
      ensures k in index <==> Lookup(c, k).Some?
      ensures k in index ==> KeyAt(c, index[k]) == Some(k) && Stored(c, index[k]) == Lookup(c, k)
    {
      ReplayLastWins(db.index, History(c), k);
      if LastEntry(History(c), k).Some? {
        HistoryFound(c, LastEntry(History(c), k).value);
      }
    }
  }
}
