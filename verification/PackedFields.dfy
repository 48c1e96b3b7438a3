/** The packed entries of a container table of contents. */
module PackedFields {
  import opened Bytes

  const OFFSET_LIMIT: nat := 0x100_0000_0000
  const SIZE_LIMIT: nat := 0x100_0000

  lemma {:induction false} FieldLimits()
    ensures Range(5) == OFFSET_LIMIT && Range(3) == SIZE_LIMIT && Range(1) == 256
  {
    assert Range(1) == 256 && Range(2) == 65536 && Range(3) == 0x100_0000 && Range(4) == 0x1_0000_0000;
  }

  /** The bytes in the opposite order. */
  function Reversed(b: seq<byte>): (r: seq<byte>)
    ensures |r| == |b| && forall i :: 0 <= i < |b| ==> r[i] == b[|b| - 1 - i]
  {
    seq(|b|, i requires 0 <= i < |b| => b[|b| - 1 - i])
  }

  lemma {:induction false} ReversedTwice(b: seq<byte>)
    ensures Reversed(Reversed(b)) == b
  {
  }

  /** A sequence with one stretch replaced. */
  function Patched(s: seq<byte>, at: nat, data: seq<byte>): (r: seq<byte>)
    requires at + |data| <= |s|
    ensures |r| == |s|
    ensures forall i :: 0 <= i < |s| ==> r[i] == if at <= i < at + |data| then data[i - at] else s[i]
  {
    s[..at] + data + s[at + |data|..]
  }

  lemma {:induction false} PatchedInside(s: seq<byte>, at: nat, data: seq<byte>)
    requires at + |data| <= |s|
    ensures Patched(s, at, data)[at..at + |data|] == data
  {
  }

  lemma {:induction false} PatchedOutside(s: seq<byte>, at: nat, data: seq<byte>, from: nat, to: nat)
    requires at + |data| <= |s| && from <= to <= |s| && (to <= at || at + |data| <= from)
    ensures Patched(s, at, data)[from..to] == s[from..to]
  {
  }

  // ---- FIoOffsetAndLength ----

  /** `FIoOffsetAndLength`: two 40-bit numbers, most significant byte first. */
  datatype OffsetAndLength = OffsetAndLength(data: seq<byte>) {
    predicate Valid() { |data| == 10 }

    function Offset(): nat
      requires Valid()
    {
      FromLe(Reversed(data[0..5]))
    }

    function Length(): nat
      requires Valid()
    {
      FromLe(Reversed(data[5..10]))
    }

    /** `set_offset`: the low five bytes of the value. */
    function WithOffset(value: nat): (r: OffsetAndLength)
      requires Valid()
      ensures r.Valid()
    {
      OffsetAndLength(Patched(data, 0, Reversed(Le(value, 5))))
    }

    function WithLength(value: nat): (r: OffsetAndLength)
      requires Valid()
      ensures r.Valid()
    {
      OffsetAndLength(Patched(data, 5, Reversed(Le(value, 5))))
    }

    lemma {:induction false} SetOffset(value: nat)
      requires Valid()
      ensures WithOffset(value).Offset() == value % OFFSET_LIMIT
      ensures WithOffset(value).Length() == Length()
    {
      var bytes := Reversed(Le(value, 5));
      PatchedInside(data, 0, bytes);
      PatchedOutside(data, 0, bytes, 5, 10);
      ReversedTwice(Le(value, 5));
      LeTruncates(value, 5);
      FieldLimits();
    }

    lemma {:induction false} SetLength(value: nat)
      requires Valid()
      ensures WithLength(value).Length() == value % OFFSET_LIMIT
      ensures WithLength(value).Offset() == Offset()
    {
      var bytes := Reversed(Le(value, 5));
      PatchedInside(data, 5, bytes);
      PatchedOutside(data, 5, bytes, 0, 5);
      ReversedTwice(Le(value, 5));
      LeTruncates(value, 5);
      FieldLimits();
    }
  }

  function NewOffsetAndLength(offset: nat, length: nat): (r: OffsetAndLength)
    ensures r.Valid()
  {
    OffsetAndLength(seq(10, _ => 0)).WithOffset(offset).WithLength(length)
  }

  /** Both fields keep what fits in 40 bits and silently drop higher bytes. */
  lemma {:induction false} OffsetAndLengthHolds(offset: nat, length: nat)
    ensures NewOffsetAndLength(offset, length).Offset() == offset % OFFSET_LIMIT
    ensures NewOffsetAndLength(offset, length).Length() == length % OFFSET_LIMIT
  {
    var zero := OffsetAndLength(seq(10, _ => 0));
    zero.SetOffset(offset);
    zero.WithOffset(offset).SetLength(length);
  }

  // ---- FIoStoreTocCompressedBlockEntry ----

  /**
   * `FIoStoreTocCompressedBlockEntry`: 40-bit offset, two 24-bit sizes and a method index, least significant byte
   * first.
   */
  datatype BlockEntry = BlockEntry(data: seq<byte>) {
    predicate Valid() { |data| == 12 }

    function Offset(): nat
      requires Valid()
    {
      FromLe(data[0..5])
    }

    function CompressedSize(): nat
      requires Valid()
    {
      FromLe(data[5..8])
    }

    function UncompressedSize(): nat
      requires Valid()
    {
      FromLe(data[8..11])
    }

    function MethodIndex(): nat
      requires Valid()
    {
      data[11]
    }

    /** A setter overwrites `n` bytes from `at` on with the low bytes of the value. */
    function WithField(at: nat, n: nat, value: nat): (r: BlockEntry)
      requires Valid() && at + n <= 12
      ensures r.Valid()
    {
      BlockEntry(Patched(data, at, Le(value, n)))
    }

    lemma {:induction false} SetField(at: nat, n: nat, value: nat, from: nat, to: nat)
      requires Valid() && at + n <= 12 && from <= to <= 12 && (to <= at || at + n <= from)
      ensures FromLe(WithField(at, n, value).data[at..at + n]) == value % Range(n)
      ensures WithField(at, n, value).data[from..to] == data[from..to]
    {
      PatchedInside(data, at, Le(value, n));
      PatchedOutside(data, at, Le(value, n), from, to);
      LeTruncates(value, n);
    }
  }

  function NewBlockEntry(offset: nat, compressedSize: nat, uncompressedSize: nat, methodIndex: byte): (r: BlockEntry)
    ensures r.Valid()
  {
    var sized :=
      BlockEntry(seq(12, _ => 0)).WithField(0, 5, offset).WithField(5, 3, compressedSize).WithField(8, 3,
                                                                                                    uncompressedSize);
    BlockEntry(Patched(sized.data, 11, [methodIndex]))
  }

  /** All four fields keep what fits. */
  lemma {:induction false} BlockEntryHolds(offset: nat, compressedSize: nat, uncompressedSize: nat, methodIndex: byte)
    ensures var b := NewBlockEntry(offset, compressedSize, uncompressedSize, methodIndex);
      && b.Offset() == offset % OFFSET_LIMIT
      && b.CompressedSize() == compressedSize % SIZE_LIMIT
      && b.UncompressedSize() == uncompressedSize % SIZE_LIMIT
      && b.MethodIndex() == methodIndex
  {
    FieldLimits();
    var zero := BlockEntry(seq(12, _ => 0));
    var placed := zero.WithField(0, 5, offset);
    var packed := placed.WithField(5, 3, compressedSize);
    var sized := packed.WithField(8, 3, uncompressedSize);
    zero.SetField(0, 5, offset, 5, 12);
    placed.SetField(5, 3, compressedSize, 0, 5);
    packed.SetField(8, 3, uncompressedSize, 0, 5);
    packed.SetField(8, 3, uncompressedSize, 5, 8);
    PatchedOutside(sized.data, 11, [methodIndex], 0, 5);
    PatchedOutside(sized.data, 11, [methodIndex], 5, 8);
    PatchedOutside(sized.data, 11, [methodIndex], 8, 11);
  }
}
