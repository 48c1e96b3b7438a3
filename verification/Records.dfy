/** Sequences of byte records: joined, located and read back. */
module Records {
  import opened Package
  import opened Bytes
  import opened Cursors

  function Flat(records: seq<seq<byte>>): seq<byte> {
    if records == [] then [] else Flat(records[..|records| - 1]) + records[|records| - 1]
  }

  ghost predicate Wide(records: seq<seq<byte>>, width: nat) {
    forall r :: r in records ==> |r| == width
  }

  lemma {:induction false} FlatAppend(records: seq<seq<byte>>, r: seq<byte>)
    ensures Flat(records + [r]) == Flat(records) + r
  {
    assert (records + [r])[..|records|] == records;
  }

  lemma {:induction false} OneMore(width: nat, n: nat)
    ensures width * (n + 1) == width * n + width
  {
  }

  lemma {:induction false} FrontWide(records: seq<seq<byte>>, width: nat)
    requires Wide(records, width) && records != []
    ensures Wide(records[..|records| - 1], width) && |records[|records| - 1]| == width
  {
    assert records[|records| - 1] in records;
  }

  lemma {:induction false} FlatLength(records: seq<seq<byte>>, width: nat)
    requires Wide(records, width)
    ensures |Flat(records)| == width * |records|
  {
    if records != [] {
      FrontWide(records, width);
      FlatLength(records[..|records| - 1], width);
      OneMore(width, |records| - 1);
    }
  }

  /** The start of record `k`. */
  ghost function StartOf(records: seq<seq<byte>>, k: nat): nat
    requires k <= |records|
  {
    |Flat(records[..k])|
  }

  /** Each record is at its start. */
  lemma {:induction false} RecordAt(buffer: seq<byte>, at: nat, records: seq<seq<byte>>, k: nat)
    requires HasBlob(buffer, at, Flat(records)) && k < |records|
    ensures HasBlob(buffer, at + StartOf(records, k), records[k])
    ensures StartOf(records, k + 1) == StartOf(records, k) + |records[k]|
  {
    var front := records[..|records| - 1];
    SplitBlob(buffer, at, Flat(front), records[|records| - 1]);
    FlatAppend(records[..k], records[k]);
    assert records[..k + 1] == records[..k] + [records[k]];
    if k < |front| {
      RecordAt(buffer, at, front, k);
      assert front[..k] == records[..k];
    } else {
      assert records[..k] == front;
    }
  }

  lemma {:induction false} StartsOfWide(records: seq<seq<byte>>, width: nat, k: nat)
    requires Wide(records, width) && k <= |records|
    ensures StartOf(records, k) == width * k
  {
    assert forall r :: r in records[..k] ==> r in records;
    FlatLength(records[..k], width);
  }

  /** Records of one width at a position. */
  ghost predicate HasRecords(buffer: seq<byte>, at: nat, records: seq<seq<byte>>, width: nat) {
    Wide(records, width) && HasBlob(buffer, at, Flat(records))
  }

  method ReadRecords(buffer: seq<byte>, at: nat, count: nat, width: nat, ghost records: seq<seq<byte>>,
                     ghost held: bool)
    returns (r: Option<seq<seq<byte>>>)
    requires held ==> HasRecords(buffer, at, records, width) && count == |records| && width > 0
    ensures held ==> r == Some(records)
    ensures r.Some? ==> |r.value| == count
  {
    var list: seq<seq<byte>> := [];
    var position := at;
    for k := 0 to count
      invariant |list| == k && position == at + width * k && (held ==> list == records[..k])
    {
      if held {
        RecordAt(buffer, at, records, k);
        StartsOfWide(records, width, k);
        assert records[k] in records;
      }
      if position + width > |buffer| {
        return None;
      }
      list := list + [buffer[position..position + width]];
      position := position + width;
      OneMore(width, k);
    }
    assert held ==> records[..count] == records;
    r := Some(list);
  }

  /** A list as the serializer writes it: a 32-bit length, then the records. */
  function Counted(records: seq<seq<byte>>): seq<byte> {
    Le(|records|, 4) + Flat(records)
  }

  /** A counted list at a position, within the buffer. */
  ghost predicate HasCounted(buffer: seq<byte>, at: nat, records: seq<seq<byte>>, width: nat) {
    HasBlob(buffer, at, Counted(records)) && Wide(records, width) && |records| < 0x1_0000_0000 && width > 0
  }

  lemma {:induction false} CountedParts(buffer: seq<byte>, at: nat, records: seq<seq<byte>>, width: nat)
    requires HasCounted(buffer, at, records, width)
    ensures ReadLe(buffer, at, 4) == Some(|records|) && HasRecords(buffer, at + 4, records, width)
    ensures |Counted(records)| == 4 + width * |records|
  {
    SplitBlob(buffer, at, Le(|records|, 4), Flat(records));
    Ranges();
    ReadsBack(buffer, at, |records|, 4);
    FlatLength(records, width);
  }

  method ReadCounted(buffer: seq<byte>, at: nat, width: nat, ghost records: seq<seq<byte>>, ghost held: bool)
    returns (r: Option<(seq<seq<byte>>, nat)>)
    requires held ==> HasCounted(buffer, at, records, width)
    ensures held ==> r == Some((records, at + |Counted(records)|))
  {
    if held {
      CountedParts(buffer, at, records, width);
    }
    var count := ReadLe(buffer, at, 4);
    if count.None? {
      return None;
    }
    var list := ReadRecords(buffer, at + 4, count.value, width, records, held);
    if list.None? {
      return None;
    }
    r := Some((list.value, at + 4 + width * count.value));
  }

  /** No more records than the bytes they take. */
  lemma {:induction false} RecordsNoMoreThanBytes(records: seq<seq<byte>>, width: nat)
    requires Wide(records, width) && width > 0
    ensures |records| <= |Flat(records)|
  {
    FlatLength(records, width);
    MulBound(|records|, width);
  }

  /** In a buffer of less than 2 GiB a list's length fits its 32 bits. */
  lemma {:induction false} CountedFits(buffer: seq<byte>, at: nat, records: seq<seq<byte>>, width: nat)
    requires HasBlob(buffer, at, Counted(records)) && Wide(records, width) && width > 0 && |buffer| < 0x8000_0000
    ensures HasCounted(buffer, at, records, width)
  {
    RecordsNoMoreThanBytes(records, width);
    assert |Counted(records)| == 4 + |Flat(records)|;
  }
}
