/**
 * `recoverIndex`: the segments are scanned in id order, each from offset 0
 * until end of file, then the active file from offset 0 while the offset is
 * below `activeOffset`; every record read sets its key's index entry to the
 * record's location, so the last write wins.
 */
module Recovery {
  import opened Bytes
  import opened Wrappers
  import opened Errors
  import opened Codec
  import opened Layout
  import opened Log
  import opened Engine

  /**
   * The inner loop over one segment, from `pos` with the entries `read` so
   * far: records are decoded one after the other; end of file ends the scan
   * and any other error aborts it.
   */
  function ScanSegment(buf: seq<byte>, pos: nat, read: seq<Entry>): (r: Result<seq<Entry>, Error>)
    requires pos <= |buf|
    ensures r.Err? ==> r.error != EndOfFile
    ensures r.Ok? ==> |read| <= |r.value| && forall i :: 0 <= i < |read| ==> r.value[i] == read[i]
    decreases |buf| - pos
  {
    match DecodeAt(buf, pos)
    case Failed(e) => if e == EndOfFile then Ok(read) else Err(e)
    case Decoded(rec, n) => ScanSegment(buf, pos + n, read + [Entry(pos, rec)])
  }

  /** One record decoded: the segment scan moves past it with its entry read. */
  lemma ScanSegmentStep(buf: seq<byte>, pos: nat, read: seq<Entry>)
    requires pos <= |buf| && DecodeAt(buf, pos).Decoded?
    ensures var d := DecodeAt(buf, pos);
      ScanSegment(buf, pos, read) == ScanSegment(buf, pos + d.size, read + [Entry(pos, d.record)])
  {
  }

  /** The outer loop over the segments: their entries in order, each tagged with its segment id. */
  function ScanSegments(files: seq<seq<byte>>): (r: Result<seq<Located>, Error>)
    decreases |files|
  {
    if files == [] then Ok([])
    else
      var earlier :- ScanSegments(files[..|files| - 1]);
      var entries :- ScanSegment(files[|files| - 1], 0, []);
      Ok(earlier + Tag(|files| - 1, entries))
  }

  /**
   * The loop over the active file, from `pos` with the entries `read` so
   * far, while the offset is below `end`: every error aborts, end of file
   * included.
   */
  function ScanActive(buf: seq<byte>, pos: nat, end: nat, read: seq<Entry>): (r: Result<seq<Entry>, Error>)
    requires end <= |buf|
    ensures r.Err? ==> pos < end
    ensures r.Ok? ==> |read| <= |r.value| && forall i :: 0 <= i < |read| ==> r.value[i] == read[i]
    decreases end - pos
  {
    if pos >= end then Ok(read)
    else
      match DecodeAt(buf, pos)
      case Failed(e) => Err(e)
      case Decoded(rec, n) => ScanActive(buf, pos + n, end, read + [Entry(pos, rec)])
  }

  /** Everything `recoverIndex` reads, in the order it reads it. */
  function RecoveredLog(db: Bitcask): Result<seq<Located>, Error>
    requires Shaped(db)
  {
    var segments :- ScanSegments(db.dataFiles);
    var active :- ScanActive(db.mmapData, 0, db.activeOffset, []);
    Ok(segments + Tag(ActiveFileId, active))
  }

  /**
   * `recoverIndex`: the current index updated by every record read, or the
   * first read error. The segments' loop runs to completion before the
   * active file's loop starts.
   */
  function RecoverIndex(db: Bitcask): (r: Result<map<Key, FileOffset>, Error>)
    requires Shaped(db)
    ensures r.Ok? <==> RecoveredLog(db).Ok?
    ensures r.Ok? ==> forall k :: k in r.value <==> k in db.index || LastEntry(RecoveredLog(db).value, k).Some?
    ensures r.Ok? ==>
      && ScanSegments(db.dataFiles).Ok? && ScanActive(db.mmapData, 0, db.activeOffset, []).Ok?
      && r.value == Replay(Replay(db.index, ScanSegments(db.dataFiles).value), Tag(ActiveFileId, ScanActive(db.mmapData, 0, db.activeOffset, []).value))
  {
    var segments :- ScanSegments(db.dataFiles);
    var active :- ScanActive(db.mmapData, 0, db.activeOffset, []);
    ReplayAppend(db.index, segments, Tag(ActiveFileId, active));
    var log := segments + Tag(ActiveFileId, active);
    assert forall k :: k in Replay(db.index, log) <==> k in db.index || LastEntry(log, k).Some? by {
      forall k {
        ReplayLastWins(db.index, log, k);
      }
    }
    Ok(Replay(db.index, log))
  }

  /** A failed segment makes every longer list of segments fail the same way. */
  lemma {:induction false} ScanSegmentsFails(files: seq<seq<byte>>, n: nat)
    requires n <= |files| && ScanSegments(files[..n]).Err?
    ensures ScanSegments(files) == ScanSegments(files[..n])
    decreases |files|
  {
    if n < |files| {
      var p := files[..|files| - 1];
      assert p[..n] == files[..n];
      ScanSegmentsFails(p, n);
    } else {
      assert files[..n] == files;
    }
  }

  /** Every record of well-formed records laid out at the start of `buf` decodes at its entry's offset. */
  lemma DecodeEach(buf: seq<byte>, rs: seq<Record>, j: nat)
    requires AllWellFormed(rs) && |Serialize(rs)| <= |buf| && buf[..|Serialize(rs)|] == Serialize(rs)
    requires j < |rs|
    ensures |Serialize(rs[..j])| <= |buf|
    ensures DecodeAt(buf, |Serialize(rs[..j])|) == Decoded(rs[j], RecordSize(rs[j].header))
    ensures |Serialize(rs[..j])| + RecordSize(rs[j].header) == |Serialize(rs[..j + 1])|
  {
    FindEntry(rs, j);
    DecodeFound(buf, rs, |Serialize(rs[..j])|);
    var q := rs[..j + 1];
    assert q[..j] == rs[..j];
  }

  /** Where the entry after the `j`-th one starts: the next entry's offset, or `end` after the last. */
  function NextOffset(es: seq<Entry>, j: nat, end: nat): nat {
    if j + 1 < |es| then es[j + 1].offset else end
  }

  /** Where scanning from the `j`-th entry starts: its offset, or `end` when all entries are read. */
  function StartOffset(es: seq<Entry>, j: nat, end: nat): nat {
    if j < |es| then es[j].offset else end
  }

  /**
   * The entries `es` lie back to back in `buf` up to `end`: each decodes at
   * its offset into its record and spans the bytes up to the next one.
   */
  predicate Chained(buf: seq<byte>, es: seq<Entry>, end: nat) {
    && end <= |buf|
    && forall i :: 0 <= i < |es| ==>
      && es[i].offset < NextOffset(es, i, end) <= end
      && DecodeAt(buf, es[i].offset) == Decoded(es[i].record, NextOffset(es, i, end) - es[i].offset)
  }

  /** Reading the `j`-th chained entry of a segment moves the scan to the next one. */
  lemma SegmentAdvance(buf: seq<byte>, es: seq<Entry>, j: nat)
    requires Chained(buf, es, |buf|) && j < |es|
    ensures ScanSegment(buf, es[j].offset, es[..j]) == ScanSegment(buf, NextOffset(es, j, |buf|), es[..j + 1])
  {
    SnocSlice(es, j);
  }

  /** Reading the `j`-th chained entry of the active file moves the scan to the next one. */
  lemma ActiveAdvance(buf: seq<byte>, es: seq<Entry>, end: nat, j: nat)
    requires Chained(buf, es, end) && j < |es|
    ensures ScanActive(buf, es[j].offset, end, es[..j]) == ScanActive(buf, NextOffset(es, j, end), end, es[..j + 1])
  {
    SnocSlice(es, j);
  }

  /** Scanning a segment whose entries are chained up to its end, from the `j`-th entry, yields all of them. */
  lemma {:induction false} ScanSegmentChain(buf: seq<byte>, es: seq<Entry>, j: nat)
    requires Chained(buf, es, |buf|) && j <= |es|
    ensures ScanSegment(buf, StartOffset(es, j, |buf|), es[..j]) == Ok(es)
    decreases |es| - j
  {
    if j == |es| {
      assert es[..j] == es;
    } else {
      SegmentAdvance(buf, es, j);
      ScanSegmentChain(buf, es, j + 1);
    }
  }

  /** Scanning an active file whose entries are chained up to `end`, from the `j`-th entry, yields all of them. */
  lemma {:induction false} ScanActiveChain(buf: seq<byte>, es: seq<Entry>, end: nat, j: nat)
    requires Chained(buf, es, end) && j <= |es|
    ensures ScanActive(buf, StartOffset(es, j, end), end, es[..j]) == Ok(es)
    decreases |es| - j
  {
    if j == |es| {
      assert es[..j] == es;
    } else {
      ActiveAdvance(buf, es, end, j);
      ScanActiveChain(buf, es, end, j + 1);
    }
  }

  /** The `i`-th entry of a file holds the `i`-th record, between the ends of the first `i` and `i + 1` records. */
  lemma EntryBounds(rs: seq<Record>, i: nat)
    requires i < |rs|
    ensures var es := Entries(rs);
      && es[i] == Entry(|Serialize(rs[..i])|, rs[i])
      && NextOffset(es, i, |Serialize(rs)|) == |Serialize(rs[..i + 1])|
  {
    EntriesAt(rs, i);
    if i + 1 < |rs| {
      EntriesAt(rs, i + 1);
    } else {
      assert rs[..i + 1] == rs;
    }
  }

  /** The `i`-th record of a buffer that starts with well-formed records decodes at its entry and reaches the next one. */
  lemma EntryChained(buf: seq<byte>, rs: seq<Record>, i: nat)
    requires AllWellFormed(rs) && |Serialize(rs)| <= |buf| && buf[..|Serialize(rs)|] == Serialize(rs)
    requires i < |rs|
    ensures var es := Entries(rs);
      && es[i].offset < NextOffset(es, i, |Serialize(rs)|) <= |Serialize(rs)|
      && DecodeAt(buf, es[i].offset) == Decoded(es[i].record, NextOffset(es, i, |Serialize(rs)|) - es[i].offset)
  {
    DecodeEach(buf, rs, i);
    EntryBounds(rs, i);
    SerializePrefix(rs, i + 1);
  }

  /** The records of a buffer that starts with well-formed records lie back to back up to their end. */
  lemma EntriesChained(buf: seq<byte>, rs: seq<Record>)
    requires AllWellFormed(rs) && |Serialize(rs)| <= |buf| && buf[..|Serialize(rs)|] == Serialize(rs)
    ensures Chained(buf, Entries(rs), |Serialize(rs)|)
  {
    forall i | 0 <= i < |rs| {
      EntryChained(buf, rs, i);
    }
  }

  /** The first entry starts the file. */
  lemma EntriesStart(rs: seq<Record>)
    ensures StartOffset(Entries(rs), 0, |Serialize(rs)|) == 0
  {
    if rs != [] {
      EntriesAt(rs, 0);
      assert rs[..0] == [];
    }
  }

  /** A segment written as a sequence of well-formed records scans back to exactly its entries. */
  lemma ScanSerialized(rs: seq<Record>)
    requires AllWellFormed(rs)
    ensures ScanSegment(Serialize(rs), 0, []) == Ok(Entries(rs))
  {
    EntriesChained(Serialize(rs), rs);
    EntriesStart(rs);
    ScanSegmentChain(Serialize(rs), Entries(rs), 0);
  }

  /** The active file's written prefix scans back to exactly its entries. */
  lemma ScanActiveSerialized(buf: seq<byte>, rs: seq<Record>)
    requires AllWellFormed(rs) && |Serialize(rs)| <= |buf| && buf[..|Serialize(rs)|] == Serialize(rs)
    ensures ScanActive(buf, 0, |Serialize(rs)|, []) == Ok(Entries(rs))
  {
    EntriesChained(buf, rs);
    EntriesStart(rs);
    ScanActiveChain(buf, Entries(rs), |Serialize(rs)|, 0);
  }

  /** A located entry decoded at `e.offset` into its record, spanning the bytes up to `next`. */
  predicate DecodesTo(buf: seq<byte>, e: Entry, next: nat) {
    e.offset < next <= |buf| && DecodeAt(buf, e.offset) == Decoded(e.record, next - e.offset)
  }

  /** A segment scan that succeeds before the end of the file has decoded a record there. */
  lemma ScanSegmentDecodes(buf: seq<byte>, pos: nat, read: seq<Entry>)
    requires pos < |buf| && ScanSegment(buf, pos, read).Ok?
    ensures DecodeAt(buf, pos).Decoded?
  {
  }

  /** A segment scan that succeeds before the end of the file decodes an entry there. */
  lemma ScanSegmentHead(buf: seq<byte>, pos: nat, read: seq<Entry>) returns (e: Entry, next: nat)
    requires pos < |buf| && ScanSegment(buf, pos, read).Ok?
    ensures e.offset == pos && DecodesTo(buf, e, next)
    ensures DecodeAt(buf, pos).Decoded?
    ensures e == Entry(pos, DecodeAt(buf, pos).record) && next == pos + DecodeAt(buf, pos).size
  {
    ScanSegmentDecodes(buf, pos, read);
    var d := DecodeAt(buf, pos);
    e := Entry(pos, d.record);
    next := pos + d.size;
  }

  /** Once the entry at `pos` is decoded, a segment scan goes on behind it. */
  lemma ScanSegmentFollows(buf: seq<byte>, pos: nat, read: seq<Entry>, e: Entry, next: nat)
    requires pos <= |buf| && DecodeAt(buf, pos).Decoded?
    requires e == Entry(pos, DecodeAt(buf, pos).record) && next == pos + DecodeAt(buf, pos).size
    ensures ScanSegment(buf, next, read + [e]) == ScanSegment(buf, pos, read)
  {
    ScanSegmentStep(buf, pos, read);
  }

  /** An active-file scan that succeeds below `end` has decoded a record there. */
  lemma ScanActiveDecodes(buf: seq<byte>, pos: nat, end: nat, read: seq<Entry>)
    requires pos < end <= |buf| && ScanActive(buf, pos, end, read).Ok?
    ensures DecodeAt(buf, pos).Decoded?
  {
  }

  /** An active-file scan that succeeds below `end` decodes an entry there. */
  lemma ScanActiveHead(buf: seq<byte>, pos: nat, end: nat, read: seq<Entry>) returns (e: Entry, next: nat)
    requires pos < end <= |buf| && ScanActive(buf, pos, end, read).Ok?
    ensures e.offset == pos && DecodesTo(buf, e, next)
    ensures DecodeAt(buf, pos).Decoded?
    ensures e == Entry(pos, DecodeAt(buf, pos).record) && next == pos + DecodeAt(buf, pos).size
  {
    ScanActiveDecodes(buf, pos, end, read);
    var d := DecodeAt(buf, pos);
    e := Entry(pos, d.record);
    next := pos + d.size;
  }

  /** Once the entry at `pos` below `end` is decoded, an active-file scan goes on behind it. */
  lemma ScanActiveFollows(buf: seq<byte>, pos: nat, end: nat, read: seq<Entry>, e: Entry, next: nat)
    requires pos < end <= |buf| && DecodeAt(buf, pos).Decoded?
    requires e == Entry(pos, DecodeAt(buf, pos).record) && next == pos + DecodeAt(buf, pos).size
    ensures ScanActive(buf, next, end, read + [e]) == ScanActive(buf, pos, end, read)
  {
  }

  /** What follows `read` in entries that start with `read` and then `e`. */
  lemma TailAfter(es: seq<Entry>, read: seq<Entry>, e: Entry)
    requires |read| + 1 <= |es| && forall i :: 0 <= i < |read| + 1 ==> es[i] == (read + [e])[i]
    ensures es[|read|..] == [e] + es[|read| + 1..]
  {
    assert es[|read|] == (read + [e])[|read|];
  }

  /** The link of the `i`-th entry of a chain is the link of the `(i + 1)`-th once an entry is put in front. */
  lemma LinkShift(buf: seq<byte>, e: Entry, es: seq<Entry>, end: nat, i: nat)
    requires 0 < i <= |es| && end <= |buf|
    requires es[i - 1].offset < NextOffset(es, i - 1, end) <= end
    requires DecodeAt(buf, es[i - 1].offset) == Decoded(es[i - 1].record, NextOffset(es, i - 1, end) - es[i - 1].offset)
    ensures var ys := [e] + es;
      && ys[i].offset < NextOffset(ys, i, end) <= end
      && DecodeAt(buf, ys[i].offset) == Decoded(ys[i].record, NextOffset(ys, i, end) - ys[i].offset)
  {
    var ys := [e] + es;
    assert ys[i] == es[i - 1] && NextOffset(ys, i, end) == NextOffset(es, i - 1, end);
  }

  /** The link of an entry put in front of a chain is its own decode, up to where the chain starts. */
  lemma LinkHead(buf: seq<byte>, e: Entry, es: seq<Entry>, end: nat)
    requires DecodesTo(buf, e, StartOffset(es, 0, end)) && StartOffset(es, 0, end) <= end
    ensures var ys := [e] + es;
      && ys[0].offset < NextOffset(ys, 0, end) <= end
      && DecodeAt(buf, ys[0].offset) == Decoded(ys[0].record, NextOffset(ys, 0, end) - ys[0].offset)
  {
    var ys := [e] + es;
    assert ys[0] == e && NextOffset(ys, 0, end) == StartOffset(es, 0, end);
  }

  /** An entry put in front of entries chained from where it ends makes a chain from its own offset. */
  lemma ChainedCons(buf: seq<byte>, e: Entry, es: seq<Entry>, end: nat)
    requires Chained(buf, es, end) && DecodesTo(buf, e, StartOffset(es, 0, end)) && StartOffset(es, 0, end) <= end
    ensures Chained(buf, [e] + es, end) && StartOffset([e] + es, 0, end) == e.offset
  {
    var ys := [e] + es;
    forall i | 0 <= i < |ys|
      ensures ys[i].offset < NextOffset(ys, i, end) <= end
      ensures DecodeAt(buf, ys[i].offset) == Decoded(ys[i].record, NextOffset(ys, i, end) - ys[i].offset)
    {
      if i == 0 {
        LinkHead(buf, e, es, end);
      } else {
        LinkShift(buf, e, es, end, i);
      }
    }
  }

  /**
   * What a segment scan adds to `read` is chained: the entries decode one
   * after the other from `pos`, the last one ending exactly at the end of
   * the file.
   */
  lemma {:induction false} ScanSegmentChained(buf: seq<byte>, pos: nat, read: seq<Entry>)
    requires pos <= |buf| && ScanSegment(buf, pos, read).Ok?
    ensures var es := ScanSegment(buf, pos, read).value;
      Chained(buf, es[|read|..], |buf|) && StartOffset(es[|read|..], 0, |buf|) == pos
    decreases |buf| - pos
  {
    var es := ScanSegment(buf, pos, read).value;
    if pos == |buf| {
      assert es[|read|..] == [];
    } else {
      var e, next := ScanSegmentHead(buf, pos, read);
      ScanSegmentFollows(buf, pos, read, e, next);
      ScanSegmentChained(buf, next, read + [e]);
      TailAfter(es, read, e);
      ChainedCons(buf, e, es[|read| + 1..], |buf|);
    }
  }

  /**
   * What an active-file scan adds to `read` is chained from `pos` to the
   * returned `stop`: every entry starts below `end`, and the scan stops at
   * the first record boundary at or beyond `end`.
   */
  lemma {:induction false} ScanActiveChained(buf: seq<byte>, pos: nat, end: nat, read: seq<Entry>) returns (stop: nat)
    requires end <= |buf| && pos <= |buf| && ScanActive(buf, pos, end, read).Ok?
    ensures var es := ScanActive(buf, pos, end, read).value;
      && end <= stop
      && Chained(buf, es[|read|..], stop) && StartOffset(es[|read|..], 0, stop) == pos
      && forall i :: |read| <= i < |es| ==> es[i].offset < end
    decreases end - pos
  {
    var es := ScanActive(buf, pos, end, read).value;
    if pos >= end {
      stop := pos;
      assert es[|read|..] == [];
    } else {
      var e, next := ScanActiveHead(buf, pos, end, read);
      ScanActiveFollows(buf, pos, end, read, e, next);
      stop := ScanActiveChained(buf, next, end, read + [e]);
      TailAfter(es, read, e);
      ChainedCons(buf, e, es[|read| + 1..], stop);
    }
  }

  /**
   * After a restart `initActiveFile` sets the write position back to 0, so
   * recovery reads no record of the active file, whatever it holds: only
   * the segments are replayed.
   */
  lemma RecoverAfterRestart(db: Bitcask, existing: seq<byte>, maxSize: nat)
    ensures var r := InitActiveFile(db, existing, maxSize);
      RecoveredLog(r) == (var segments :- ScanSegments(db.dataFiles); Ok(segments))
  {
    var r := InitActiveFile(db, existing, maxSize);
    assert ScanActive(r.mmapData, 0, 0, []) == Ok([]);
    assert forall log: seq<Located> :: log + Tag(ActiveFileId, []) == log;
  }
}
