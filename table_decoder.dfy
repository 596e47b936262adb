/**
 * The table record decoder of unidecode.go (decodeTransliterations), over the
 * already decompressed asset bytes.
 *
 * The byte stream is a run of records: a 2-byte little-endian slot index, a
 * 1-byte payload length N, then N payload bytes. Each payload is stored in the
 * 65536-slot table at its index. The stream must end exactly on a record
 * boundary; any other truncation is fatal.
 */
module TableDecoder {
  import opened Wrappers

  /** Number of slots of the table: `[65536][]rune`. */
  const TableSize := 65536

  type byte = b: int | 0 <= b < 256

  /** A table: one slot per code point; None is a slot never written (nil). */
  type Table = seq<Option<seq<int>>>

  /** One encoded entry of the asset. */
  datatype Record = Record(index: int, payload: seq<byte>)

  /** The three ways a stream can end inside a record. */
  datatype DecodeError =
    | TruncatedIndex                         // one byte left where a 2-byte index starts (io.ErrUnexpectedEOF)
    | MissingLength                          // index read, no length byte follows (io.EOF)
    | TruncatedPayload(want: nat, have: nat) // fewer payload bytes than the length byte announces

  /** The records read before the decoder stopped, and why it stopped (None: clean end of stream). */
  datatype Scan = Scan(records: seq<Record>, failure: Option<DecodeError>)

  /** A record the encoding can carry: an index that fits 16 bits, a payload whose length fits one byte. */
  predicate WellFormed(r: Record)
  {
    0 <= r.index < TableSize && |r.payload| < 256
  }

  predicate AllWellFormed(recs: seq<Record>)
  {
    forall k :: 0 <= k < |recs| ==> WellFormed(recs[k])
  }

  /** binary.LittleEndian.Uint16 on two bytes. */
  function LittleEndian16(lo: byte, hi: byte): (v: int)
    ensures 0 <= v < TableSize
    ensures v % 256 == lo && v / 256 == hi
  {
    lo + 256 * hi
  }

  /** Go's `[]rune(string(b))` on a payload; each byte becomes the code point of the same value. */
  function Runes(payload: seq<byte>): seq<int>
  {
    payload
  }

  /**
   * What the read loop does with a stream: read records until the stream is
   * exhausted at a record boundary, or stop at the first truncated field.
   */
  function ScanRecords(data: seq<byte>): (s: Scan)
    ensures AllWellFormed(s.records)
    decreases |data|
  {
    if |data| == 0 then Scan([], None)
    else if |data| == 1 then Scan([], Some(TruncatedIndex))
    else if |data| == 2 then Scan([], Some(MissingLength))
    else
      var n := data[2];
      if |data| - 3 < n then Scan([], Some(TruncatedPayload(n, |data| - 3)))
      else
        var rest := ScanRecords(data[3 + n..]);
        Scan([Record(LittleEndian16(data[0], data[1]), data[3..3 + n])] + rest.records, rest.failure)
  }

  /** The table after writing the records' payloads in order, each into its slot. */
  function Store(t: Table, recs: seq<Record>): (r: Table)
    requires |t| == TableSize && AllWellFormed(recs)
    ensures |r| == |t|
    decreases |recs|
  {
    if recs == [] then t
    else
      var last := recs[|recs| - 1];
      PrefixWellFormed(recs, |recs| - 1);
      Store(t, recs[..|recs| - 1])[last.index := Some(Runes(last.payload))]
  }

  /** The table before decoding: every slot nil. */
  function EmptyTable(): (t: Table)
    ensures |t| == TableSize
    ensures forall i :: 0 <= i < |t| ==> t[i] == None
  {
    seq(TableSize, _ => None)
  }

  /** Reading from position pos of a stream that ends inside a record: nothing more is read, and why. */
  lemma ScanStopsAt(data: seq<byte>, pos: nat)
    requires pos <= |data|
    requires |data| - pos < 3 || |data| - pos - 3 < data[pos + 2]
    ensures ScanRecords(data[pos..]).records == []
    ensures var left := |data| - pos;
      ScanRecords(data[pos..]).failure ==
        if left == 0 then None
        else if left == 1 then Some(TruncatedIndex)
        else if left == 2 then Some(MissingLength)
        else Some(TruncatedPayload(data[pos + 2], left - 3))
  {
  }

  /**
   * Reading from position pos of a stream holding a whole record there: that
   * record, then what is read from next; `done` stands for the records read
   * before pos.
   */
  lemma ScanRecordAt(data: seq<byte>, pos: nat, next: nat, done: seq<Record>)
    requires pos + 3 <= |data| && next == pos + 3 + data[pos + 2] <= |data|
    ensures var r := Record(LittleEndian16(data[pos], data[pos + 1]), data[pos + 3..next]);
      done + ScanRecords(data[pos..]).records == (done + [r]) + ScanRecords(data[next..]).records
    ensures ScanRecords(data[pos..]).failure == ScanRecords(data[next..]).failure
  {
    var d := data[pos..];
    var n := d[2];
    assert d[3 + n..] == data[next..];
    assert d[3..3 + n] == data[pos + 3..next];
  }

  /** Every prefix of a run of well-formed records is well formed. */
  lemma PrefixWellFormed(recs: seq<Record>, n: nat)
    requires AllWellFormed(recs) && n <= |recs|
    ensures AllWellFormed(recs[..n])
  {
    assert forall k :: 0 <= k < n ==> recs[..n][k] == recs[k];
  }

  /** Storing one more record writes its slot on top of the table so far. */
  lemma StoreSnoc(t: Table, recs: seq<Record>, r: Record)
    requires |t| == TableSize && AllWellFormed(recs)
    requires WellFormed(r)
    ensures AllWellFormed(recs + [r])
    ensures Store(t, recs + [r]) == Store(t, recs)[r.index := Some(Runes(r.payload))]
  {
    assert (recs + [r])[..|recs|] == recs;
    assert forall k :: 0 <= k < |recs| ==> (recs + [r])[k] == recs[k];
  }

  /** The table a fresh decoder leaves behind for the given asset bytes. */
  function DecodedTable(data: seq<byte>): (t: Table)
    ensures |t| == TableSize
  {
    Store(EmptyTable(), ScanRecords(data).records)
  }

  /** The encoding of one record: index low byte, index high byte, length, payload. */
  function EncodeRecord(r: Record): (b: seq<byte>)
    requires WellFormed(r)
  {
    [r.index % 256, r.index / 256, |r.payload|] + r.payload
  }

  /** The encoding of a run of records: their encodings back to back. */
  function EncodeRecords(recs: seq<Record>): (b: seq<byte>)
    requires AllWellFormed(recs)
    decreases |recs|
  {
    if recs == [] then [] else EncodeRecord(recs[0]) + EncodeRecords(recs[1..])
  }

  /** The tail left after the last whole record, for each way of stopping. */
  predicate Truncated(tail: seq<byte>, e: DecodeError)
  {
    match e
    case TruncatedIndex => |tail| == 1
    case MissingLength => |tail| == 2
    case TruncatedPayload(want, have) => |tail| >= 3 && want == tail[2] && have == |tail| - 3 && have < want
  }

  /** Decoding an encoded run of records gives back exactly those records and no failure. */
  lemma {:induction false} ScanEncode(recs: seq<Record>)
    requires AllWellFormed(recs)
    ensures ScanRecords(EncodeRecords(recs)) == Scan(recs, None)
  {
    if recs != [] {
      var r := recs[0];
      var data := EncodeRecords(recs);
      var n := |r.payload|;
      assert data == EncodeRecord(r) + EncodeRecords(recs[1..]);
      assert data[2] == n;
      assert data[3..3 + n] == r.payload;
      assert data[3 + n..] == EncodeRecords(recs[1..]);
      assert LittleEndian16(data[0], data[1]) == r.index;
      ScanEncode(recs[1..]);
      assert [r] + recs[1..] == recs;
    }
  }

  /**
   * Exact byte accounting: the records read re-encode to a prefix of the stream;
   * on success that prefix is the whole stream, on failure the rest is one of
   * the three truncated shapes.
   */
  lemma {:induction false} ScanAccounting(data: seq<byte>)
    ensures Accounted(data)
    decreases |data|, 1
  {
    if |data| < 3 || |data| - 3 < data[2] {
      assert ScanRecords(data).records == [];
      assert data == [] + data[0..];
    } else {
      AccountingStep(data);
    }
  }

  /** The claim of ScanAccounting for one stream. */
  predicate Accounted(data: seq<byte>)
  {
    var s := ScanRecords(data);
    var consumed := EncodeRecords(s.records);
    && |consumed| <= |data|
    && data == consumed + data[|consumed|..]
    && (s.failure.None? ==> |consumed| == |data|)
    && (s.failure.Some? ==> Truncated(data[|consumed|..], s.failure.value))
  }

  /** ScanAccounting for a stream that starts with a whole record. */
  lemma {:induction false} AccountingStep(data: seq<byte>)
    requires |data| >= 3 && |data| - 3 >= data[2]
    ensures Accounted(data)
    decreases |data|, 0
  {
    var n := data[2];
    var rest := data[3 + n..];
    ScanAccounting(rest);
    var sr := ScanRecords(rest);
    var cr := EncodeRecords(sr.records);
    var r := Record(LittleEndian16(data[0], data[1]), data[3..3 + n]);
    var recs := [r] + sr.records;
    assert ScanRecords(data) == Scan(recs, sr.failure);
    assert recs[1..] == sr.records;
    assert EncodeRecord(r) == data[..3 + n];
    assert EncodeRecords(recs) == data[..3 + n] + cr;
    assert data == data[..3 + n] + rest;
    ConcatPrefix(data[..3 + n], rest, cr);
  }

  /** If b splits at c, then a + b splits at a + c. */
  lemma ConcatPrefix(a: seq<byte>, b: seq<byte>, c: seq<byte>)
    requires |c| <= |b| && b == c + b[|c|..]
    ensures (a + b)[|a + c|..] == b[|c|..]
    ensures a + b == (a + c) + (a + b)[|a + c|..]
  {
    assert (a + b)[|a + c|..] == b[|c|..];
  }

  /** The decoder succeeds exactly when the stream is a whole number of complete records. */
  lemma DecodeSucceedsIff(data: seq<byte>)
    ensures ScanRecords(data).failure.None? <==>
      exists recs :: AllWellFormed(recs) && EncodeRecords(recs) == data
  {
    ScanAccounting(data);
    if exists recs :: AllWellFormed(recs) && EncodeRecords(recs) == data {
      var recs :| AllWellFormed(recs) && EncodeRecords(recs) == data;
      ScanEncode(recs);
    }
  }

  /** A slot that no record names keeps its old value. */
  lemma {:induction false} StoreUntouched(t: Table, recs: seq<Record>, i: int)
    requires |t| == TableSize && AllWellFormed(recs)
    requires 0 <= i < |t|
    requires forall k :: 0 <= k < |recs| ==> recs[k].index != i
    ensures Store(t, recs)[i] == t[i]
    decreases |recs|
  {
    if recs != [] {
      PrefixWellFormed(recs, |recs| - 1);
      StoreUntouched(t, recs[..|recs| - 1], i);
    }
  }

  /** Last write wins: a slot holds the payload of the last record naming it. */
  lemma {:induction false} StoreLastWins(t: Table, recs: seq<Record>, k: int)
    requires |t| == TableSize && AllWellFormed(recs)
    requires 0 <= k < |recs|
    requires forall j :: k < j < |recs| ==> recs[j].index != recs[k].index
    ensures Store(t, recs)[recs[k].index] == Some(Runes(recs[k].payload))
    decreases |recs|
  {
    if k < |recs| - 1 {
      var prefix := recs[..|recs| - 1];
      PrefixWellFormed(recs, |recs| - 1);
      assert prefix[k] == recs[k];
      StoreLastWins(t, prefix, k);
    }
  }

  /** A slot named by some record is set. */
  lemma {:induction false} StoreNamedIsSet(t: Table, recs: seq<Record>, k: int)
    requires |t| == TableSize && AllWellFormed(recs)
    requires 0 <= k < |recs|
    ensures Store(t, recs)[recs[k].index].Some?
    decreases |recs|
  {
    var last := recs[|recs| - 1];
    if k < |recs| - 1 && last.index != recs[k].index {
      var prefix := recs[..|recs| - 1];
      PrefixWellFormed(recs, |recs| - 1);
      assert prefix[k] == recs[k];
      StoreNamedIsSet(t, prefix, k);
    }
  }

  /** After decoding, a slot is unset (nil) exactly when no record decoded names it. */
  lemma UnsetIffUnnamed(data: seq<byte>, i: int)
    requires 0 <= i < TableSize
    ensures DecodedTable(data)[i].None? <==>
      forall k :: 0 <= k < |ScanRecords(data).records| ==> ScanRecords(data).records[k].index != i
  {
    var recs := ScanRecords(data).records;
    if forall k :: 0 <= k < |recs| ==> recs[k].index != i {
      StoreUntouched(EmptyTable(), recs, i);
    } else {
      var k :| 0 <= k < |recs| && recs[k].index == i;
      StoreNamedIsSet(EmptyTable(), recs, k);
      assert ScanRecords(data).records[k].index == i;
    }
  }

  predicate EntriesAtMost(t: Table, n: nat)
  {
    forall i :: 0 <= i < |t| && t[i].Some? ==> |t[i].value| <= n
  }

  /** Storing records whose payloads fit the length byte keeps every entry at most 255 long. */
  lemma {:induction false} StoreKeepsEntriesShort(t: Table, recs: seq<Record>)
    requires |t| == TableSize && AllWellFormed(recs)
    requires EntriesAtMost(t, 255)
    ensures EntriesAtMost(Store(t, recs), 255)
    decreases |recs|
  {
    if recs != [] {
      var prefix := recs[..|recs| - 1];
      PrefixWellFormed(recs, |recs| - 1);
      StoreKeepsEntriesShort(t, prefix);
      assert WellFormed(recs[|recs| - 1]);
    }
  }

  /** No entry of a decoded table is longer than 255 code points. */
  lemma DecodedEntriesShort(data: seq<byte>)
    ensures EntriesAtMost(DecodedTable(data), 255)
  {
    StoreKeepsEntriesShort(EmptyTable(), ScanRecords(data).records);
  }
}
