/**
 * A file's bytes as the concatenation of the records appended to it, and the
 * entries (offset, record) such a file holds.
 */
module Layout {
  import opened Bytes
  import opened Wrappers
  import opened Codec

  /** A record found at byte `offset` of a file. */
  datatype Entry = Entry(offset: nat, record: Record)

  predicate AllWellFormed(rs: seq<Record>) {
    forall i :: 0 <= i < |rs| ==> WellFormed(rs[i])
  }

  /** The bytes of a file to which the records `rs` were appended in order. */
  function Serialize(rs: seq<Record>): (b: seq<byte>)
    decreases |rs|
  {
    if rs == [] then [] else Serialize(rs[..|rs| - 1]) + EncodeRecord(rs[|rs| - 1])
  }

  /** The entries of `Serialize(rs)`: each record with the offset it starts at. */
  function Entries(rs: seq<Record>): (es: seq<Entry>)
    ensures |es| == |rs|
    decreases |rs|
  {
    if rs == [] then [] else Entries(rs[..|rs| - 1]) + [Entry(|Serialize(rs[..|rs| - 1])|, rs[|rs| - 1])]
  }

  /** The record of the entry at `offset`, if there is one. */
  function Find(es: seq<Entry>, offset: nat): (r: Option<Record>)
    ensures r.Some? <==> exists i :: 0 <= i < |es| && es[i].offset == offset
    decreases |es|
  {
    if es == [] then None
    else if es[|es| - 1].offset == offset then Some(es[|es| - 1].record)
    else Find(es[..|es| - 1], offset)
  }

  /** The entries of all but the last record, then the last record at the end of their bytes. */
  lemma EntriesLast(rs: seq<Record>)
    requires rs != []
    ensures Entries(rs)[..|rs| - 1] == Entries(rs[..|rs| - 1])
    ensures Entries(rs)[|rs| - 1] == Entry(|Serialize(rs[..|rs| - 1])|, rs[|rs| - 1])
  {
  }

  /** Appending a record appends its encoding. */
  lemma SerializeSnoc(rs: seq<Record>, r: Record)
    ensures Serialize(rs + [r]) == Serialize(rs) + EncodeRecord(r)
    ensures Entries(rs + [r]) == Entries(rs) + [Entry(|Serialize(rs)|, r)]
  {
    assert (rs + [r])[..|rs|] == rs;
  }

  /** A prefix of the records serializes to a prefix of the bytes. */
  lemma {:induction false} SerializePrefix(rs: seq<Record>, j: nat)
    requires j <= |rs|
    ensures |Serialize(rs[..j])| <= |Serialize(rs)|
    ensures Serialize(rs)[..|Serialize(rs[..j])|] == Serialize(rs[..j])
    decreases |rs|
  {
    if j < |rs| {
      var p := rs[..|rs| - 1];
      assert p[..j] == rs[..j];
      SerializePrefix(p, j);
      var s := Serialize(rs[..j]);
      assert Serialize(rs)[..|s|] == Serialize(p)[..|s|];
    } else {
      assert rs[..j] == rs;
    }
  }

  /** The `j`-th entry is the `j`-th record, at the end of the first `j` records' bytes. */
  lemma {:induction false} EntriesAt(rs: seq<Record>, j: nat)
    requires j < |rs|
    ensures Entries(rs)[j] == Entry(|Serialize(rs[..j])|, rs[j])
    decreases |rs|
  {
    if j < |rs| - 1 {
      var p := rs[..|rs| - 1];
      EntriesAt(p, j);
      assert p[..j] == rs[..j];
    }
  }

  /** Each record adds at least a header's worth of bytes. */
  lemma {:induction false} SerializeGrows(rs: seq<Record>, i: nat, j: nat)
    requires i < j <= |rs|
    ensures |Serialize(rs[..i])| + HeaderSize <= |Serialize(rs[..j])|
    decreases j
  {
    var q := rs[..j];
    assert q[..j - 1] == rs[..j - 1];
    if i < j - 1 {
      SerializeGrows(rs, i, j - 1);
    }
  }

  /** Every record of a file is found at its own offset. */
  lemma {:induction false} FindEntry(rs: seq<Record>, j: nat)
    requires j < |rs|
    ensures Find(Entries(rs), |Serialize(rs[..j])|) == Some(rs[j])
    decreases |rs|
  {
    EntriesLast(rs);
    if j < |rs| - 1 {
      var p := rs[..|rs| - 1];
      SerializeGrows(rs, j, |rs| - 1);
      FindEntry(p, j);
      assert p[..j] == rs[..j];
    }
  }

  /** The entry found at `offset` is one of the file's entries. */
  lemma {:induction false} FindIsEntry(rs: seq<Record>, offset: nat) returns (j: nat)
    requires Find(Entries(rs), offset).Some?
    ensures j < |rs| && offset == |Serialize(rs[..j])| && Find(Entries(rs), offset) == Some(rs[j])
    decreases |rs|
  {
    var p := rs[..|rs| - 1];
    EntriesLast(rs);
    if |Serialize(p)| == offset {
      j := |rs| - 1;
    } else {
      j := FindIsEntry(p, offset);
      assert p[..j] == rs[..j];
    }
  }

  /** Appending a record adds exactly one entry, at the old end of the file. */
  lemma FindSnoc(rs: seq<Record>, r: Record, offset: nat)
    ensures Find(Entries(rs + [r]), offset) ==
      if offset == |Serialize(rs)| then Some(r) else Find(Entries(rs), offset)
  {
    SerializeSnoc(rs, r);
    var es := Entries(rs + [r]);
    assert es[..|es| - 1] == Entries(rs);
  }

  /** The first `j + 1` records serialize to the first `j` followed by the `j`-th. */
  lemma SerializeStep(rs: seq<Record>, j: nat)
    requires j < |rs|
    ensures Serialize(rs[..j + 1]) == Serialize(rs[..j]) + EncodeRecord(rs[j])
  {
    SnocSlice(rs, j);
    SerializeSnoc(rs[..j], rs[j]);
  }

  /** The `j`-th record's encoding sits in the file right after the first `j` records' bytes. */
  lemma EncodingAt(rs: seq<Record>, j: nat)
    requires j < |rs|
    ensures var at := |Serialize(rs[..j])|;
      && at + |EncodeRecord(rs[j])| <= |Serialize(rs)|
      && Serialize(rs)[at..at + |EncodeRecord(rs[j])|] == EncodeRecord(rs[j])
  {
    SerializeStep(rs, j);
    SerializePrefix(rs, j + 1);
    AppendedPiece(Serialize(rs), Serialize(rs[..j]), EncodeRecord(rs[j]));
  }

  /** The bytes at an entry's offset are its record's encoding, inside the file. */
  lemma FoundBytes(rs: seq<Record>, offset: nat) returns (j: nat)
    requires Find(Entries(rs), offset).Some?
    ensures j < |rs| && Find(Entries(rs), offset) == Some(rs[j])
    ensures offset + |EncodeRecord(rs[j])| <= |Serialize(rs)|
    ensures Serialize(rs)[offset..offset + |EncodeRecord(rs[j])|] == EncodeRecord(rs[j])
  {
    j := FindIsEntry(rs, offset);
    EncodingAt(rs, j);
  }

  /** A well-formed record encoded inside a prefix of `buf` decodes from `buf` itself. */
  lemma DecodeInPrefix(buf: seq<byte>, prefix: seq<byte>, offset: nat, rec: Record)
    requires WellFormed(rec) && |prefix| <= |buf| && buf[..|prefix|] == prefix
    requires offset + |EncodeRecord(rec)| <= |prefix| && prefix[offset..offset + |EncodeRecord(rec)|] == EncodeRecord(rec)
    ensures DecodeAt(buf, offset) == Decoded(rec, RecordSize(rec.header))
  {
    PrefixSlice(buf, prefix, offset, offset + |EncodeRecord(rec)|);
    RecordRoundTrip(rec, buf, offset);
  }

  /**
   * A buffer that starts with the bytes of well-formed records decodes the
   * record of every entry at the entry's offset.
   */
  lemma DecodeFound(buf: seq<byte>, rs: seq<Record>, offset: nat)
    requires AllWellFormed(rs) && |Serialize(rs)| <= |buf| && buf[..|Serialize(rs)|] == Serialize(rs)
    requires Find(Entries(rs), offset).Some?
    ensures offset <= |buf|
    ensures var r := Find(Entries(rs), offset).value;
      DecodeAt(buf, offset) == Decoded(r, RecordSize(r.header))
  {
    var j := FoundBytes(rs, offset);
    DecodeInPrefix(buf, Serialize(rs), offset, rs[j]);
  }
}
