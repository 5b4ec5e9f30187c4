/**
 * Record locations, the log of located records that the engine's files hold
 * when read in order, and the "last write wins" index that log determines.
 */
module Log {
  import opened Wrappers
  import opened Codec
  import opened Layout

  /** `FileID == -1` names the active (memory-mapped) file. */
  const ActiveFileId: int := -1

  /** Where a record starts: a file and the byte offset of its header. */
  datatype FileOffset = FileOffset(fileId: int, offset: nat)

  /** A record together with its location. */
  datatype Located = Located(loc: FileOffset, record: Record)

  /** The entries of the file with id `id`, as located records. */
  function Tag(id: int, es: seq<Entry>): (r: seq<Located>)
    ensures |r| == |es|
    ensures forall i :: 0 <= i < |es| ==> r[i] == Located(FileOffset(id, es[i].offset), es[i].record)
  {
    seq(|es|, i requires 0 <= i < |es| => Located(FileOffset(id, es[i].offset), es[i].record))
  }

  /** Tagging commutes with appending an entry. */
  lemma TagSnoc(id: int, es: seq<Entry>, e: Entry)
    ensures Tag(id, es + [e]) == Tag(id, es) + [Located(FileOffset(id, e.offset), e.record)]
  {
  }

  /** Tagging a prefix gives a prefix. */
  lemma TagPrefix(id: int, es: seq<Entry>, n: nat)
    requires n <= |es|
    ensures Tag(id, es)[..n] == Tag(id, es[..n])
  {
  }

  /** The last entry of `log` for `key`, if any. */
  function LastEntry(log: seq<Located>, key: Key): (r: Option<Located>)
    ensures r.Some? ==> r.value in log && r.value.record.key == key
    ensures r.None? <==> forall i :: 0 <= i < |log| ==> log[i].record.key != key
    decreases |log|
  {
    if log == [] then None
    else if log[|log| - 1].record.key == key then Some(log[|log| - 1])
    else LastEntry(log[..|log| - 1], key)
  }

  /** The entry found for a key is the last one: it sits at an index `i` and no later entry has the key. */
  lemma {:induction false} LastEntryIsLast(log: seq<Located>, key: Key) returns (i: nat)
    requires LastEntry(log, key).Some?
    ensures i < |log| && log[i] == LastEntry(log, key).value
    ensures forall j :: i < j < |log| ==> log[j].record.key != key
    decreases |log|
  {
    var n := |log| - 1;
    if log[n].record.key == key {
      i := n;
    } else {
      var p := log[..n];
      i := LastEntryIsLast(p, key);
      assert forall j :: i < j < n ==> log[j] == p[j];
    }
  }

  /** The last entry of a concatenation comes from the later part when that part has one. */
  lemma {:induction false} LastEntryAppend(xs: seq<Located>, ys: seq<Located>, key: Key)
    ensures LastEntry(xs + ys, key) == if LastEntry(ys, key).Some? then LastEntry(ys, key) else LastEntry(xs, key)
    decreases |ys|
  {
    if ys != [] {
      assert (xs + ys)[..|xs + ys| - 1] == xs + ys[..|ys| - 1];
      LastEntryAppend(xs, ys[..|ys| - 1], key);
    } else {
      assert xs + ys == xs;
    }
  }

  /** Renaming a file changes the location of its last entry for a key, never the record or the offset. */
  lemma {:induction false} LastEntryRetag(a: int, b: int, es: seq<Entry>, key: Key)
    ensures LastEntry(Tag(a, es), key).Some? == LastEntry(Tag(b, es), key).Some?
    ensures LastEntry(Tag(a, es), key).Some? ==>
      && LastEntry(Tag(a, es), key).value.record == LastEntry(Tag(b, es), key).value.record
      && LastEntry(Tag(a, es), key).value.loc.offset == LastEntry(Tag(b, es), key).value.loc.offset
    decreases |es|
  {
    if es != [] {
      var n := |es| - 1;
      TagPrefix(a, es, n);
      TagPrefix(b, es, n);
      LastEntryRetag(a, b, es[..n], key);
    }
  }

  /** Setting `index[key] = loc` for every entry of `log`, in order. */
  function Replay(index: map<Key, FileOffset>, log: seq<Located>): (r: map<Key, FileOffset>)
    ensures r.Keys == index.Keys + set i | 0 <= i < |log| :: log[i].record.key
    decreases |log|
  {
    if log == [] then index
    else
      var p := Replay(index, log[..|log| - 1]);
      var l := log[|log| - 1];
      assert forall i :: 0 <= i < |log| - 1 ==> log[..|log| - 1][i] == log[i];
      p[l.record.key := l.loc]
  }

  /** Replaying a log maps each key to its last occurrence; keys the log never mentions keep their old entry. */
  lemma {:induction false} ReplayLastWins(index: map<Key, FileOffset>, log: seq<Located>, key: Key)
    ensures key in Replay(index, log) <==> key in index || LastEntry(log, key).Some?
    ensures LastEntry(log, key).Some? ==> Replay(index, log)[key] == LastEntry(log, key).value.loc
    ensures LastEntry(log, key).None? && key in index ==> Replay(index, log)[key] == index[key]
    decreases |log|
  {
    if log != [] {
      ReplayLastWins(index, log[..|log| - 1], key);
    }
  }

  /** Replaying a concatenation replays the parts one after the other. */
  lemma {:induction false} ReplayAppend(index: map<Key, FileOffset>, xs: seq<Located>, ys: seq<Located>)
    ensures Replay(index, xs + ys) == Replay(Replay(index, xs), ys)
    decreases |ys|
  {
    if ys == [] {
      assert xs + ys == xs;
    } else {
      assert (xs + ys)[..|xs + ys| - 1] == xs + ys[..|ys| - 1];
      ReplayAppend(index, xs, ys[..|ys| - 1]);
    }
  }
}
