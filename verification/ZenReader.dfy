/** Reading a zen package header: counts come from differences of offsets, and old packages from a heuristic. */
module ZenReader {
  import opened Package
  import opened Bytes
  import opened Cursors
  import opened Records
  import opened StoreEntries
  import opened ZenLayout

  /** The summary as it is read: offsets are signed. */
  datatype ReadSummary = ReadSummary(hasVersioning: nat, headerSize: nat, identity: seq<byte>, offsets: seq<int>)

  /** Versions of the container that tell package versions apart. */
  datatype ContainerVersion = ContainerVersion(atLeastOnDemandMetaData: bool, isReplaceIoChunkHash: bool)

  // ---- The summary ----

  lemma {:induction false} OffsetReadsBack(buffer: seq<byte>, at: nat, offset: nat)
    requires offset < 0x8000_0000 && HasBlob(buffer, at, Le(offset, 4))
    ensures ReadI32(buffer, at) == Some(offset)
  {
    assert HasBlob(buffer, at, I32(offset)) by {
      assert I32(offset) == Le(offset, 4);
    }
    ReadsBackSigned(buffer, at, offset);
  }

  ghost predicate SmallOffsets(s: Summary) {
    && s.hasVersioning < 2 && s.headerSize < 0x8000_0000 && |s.identity| == 16
    && forall k :: 0 <= k < |s.offsets| ==> s.offsets[k] < 0x8000_0000
  }

  /** The parts of a written summary, each at its place. */
  lemma {:induction false} SummaryParts(buffer: seq<byte>, s: Summary)
    requires HasBlob(buffer, 0, SummaryBytes(s)) && |s.identity| == 16
    ensures HasBlob(buffer, 0, Le(s.hasVersioning, 4)) && HasBlob(buffer, 4, Le(s.headerSize, 4)) &&
            HasBlob(buffer, 8, s.identity)
    ensures HasBlob(buffer, 24, Flat(OffsetRecords(s.offsets)))
  {
    var rest := Flat(OffsetRecords(s.offsets));
    SplitBlob(buffer, 0, Le(s.hasVersioning, 4), Le(s.headerSize, 4) + (s.identity + rest));
    SplitBlob(buffer, 4, Le(s.headerSize, 4), s.identity + rest);
    SplitBlob(buffer, 8, s.identity, rest);
  }

  lemma {:induction false} OffsetAt(buffer: seq<byte>, s: Summary, k: nat)
    requires HasBlob(buffer, 24, Flat(OffsetRecords(s.offsets))) && SmallOffsets(s) && k < |s.offsets|
    ensures ReadI32(buffer, 24 + 4 * k) == Some(s.offsets[k])
  {
    var records := OffsetRecords(s.offsets);
    RecordAt(buffer, 24, records, k);
    StartsOfWide(records, 4, k);
    OffsetReadsBack(buffer, 24 + 4 * k, s.offsets[k]);
  }

  method ReadOffsets(buffer: seq<byte>, count: nat, ghost s: Summary, ghost held: bool) returns (r: Option<seq<int>>)
    requires held ==> HasBlob(buffer, 24, Flat(OffsetRecords(s.offsets))) && SmallOffsets(s) && count == |s.offsets|
    ensures r.Some? ==> |r.value| == count
    ensures held ==> r.Some? && forall k :: 0 <= k < count ==> r.value[k] == s.offsets[k]
  {
    var offsets: seq<int> := [];
    for k := 0 to count
      invariant |offsets| == k && (held ==> forall j :: 0 <= j < k ==> offsets[j] == s.offsets[j])
    {
      if held {
        OffsetAt(buffer, s, k);
      }
      var offset := ReadI32(buffer, 24 + 4 * k);
      if offset.None? {
        return None;
      }
      offsets := offsets + [offset.value];
    }
    r := Some(offsets);
  }

  /** The summary that was written, or nothing if the buffer is too short. */
  method ReadFrontSummary(buffer: seq<byte>, v: Version, ghost s: Summary, ghost held: bool)
    returns (r: Option<ReadSummary>)
    requires held ==> HasBlob(buffer, 0, SummaryBytes(s)) && SmallOffsets(s) && |s.offsets| == OffsetCount(v)
    ensures r.Some? ==> |r.value.offsets| == OffsetCount(v)
    ensures held ==> r == Some(ReadSummary(s.hasVersioning, s.headerSize, s.identity, s.offsets))
  {
    if held {
      SummaryParts(buffer, s);
      Ranges();
      ReadsBack(buffer, 0, s.hasVersioning, 4);
      ReadsBack(buffer, 4, s.headerSize, 4);
    }
    var hasVersioning, headerSize := ReadLe(buffer, 0, 4), ReadLe(buffer, 4, 4);
    if hasVersioning.None? || headerSize.None? || |buffer| < 24 {
      return None;
    }
    var offsets := ReadOffsets(buffer, OffsetCount(v), s, held);
    if offsets.None? {
      return None;
    }
    assert held ==> offsets.value == s.offsets;
    r := Some(ReadSummary(hasVersioning.value, headerSize.value, buffer[8..24], offsets.value));
  }

  // ---- Versions ----

  /** `heuristic_zen_has_bulk_data`. */
  predicate HeuristicHasBulkData(publicExportHashesOffset: int, v: Version, position: nat) {
    if v.PreInitial? || v.Initial? || v.LocalizedPackages? then false
    else if v.NoExportInfo? || v.SoftPackageReferences? then true
    else publicExportHashesOffset > position
  }

  const LARGE_WORLD_COORDINATES: int := 1004
  const ADD_SOFT_OBJECT_PATH_LIST: int := 1008
  const ASSET_REGISTRY_PACKAGE_BUILD_DEPENDENCIES: int := 1013

  /** `heuristic_zen_package_version` for modern headers: the file version without a hint, where it can be told. */
  function DerivedVersion(v: Version, container: ContainerVersion, hasBulkData: bool): Option<int> {
    match v
    case PreInitial => None
    case Initial => None
    case LocalizedPackages => Some(LARGE_WORLD_COORDINATES)
    case OptionalSegmentPackages => Some(if hasBulkData then DATA_RESOURCES else ADD_SOFT_OBJECT_PATH_LIST)
    case NoExportInfo =>
      Some(if container.atLeastOnDemandMetaData then PROPERTY_TAG_COMPLETE_TYPE_NAME else DATA_RESOURCES)
    case SoftPackageReferences =>
      if container.isReplaceIoChunkHash then Some(ASSET_REGISTRY_PACKAGE_BUILD_DEPENDENCIES) else None
  }

  /** Whether the reader expects a bulk data map, and the version it goes by. */
  method DecideVersion(stored: Option<Versioning>, hint: Option<int>, container: ContainerVersion, v: Version,
                       publicExportHashesOffset: int, position: nat)
    returns (hasBulkData: bool, versioning: Option<Versioning>)
    ensures stored.Some? ==> versioning == stored && hasBulkData == (stored.value.ue5 >= DATA_RESOURCES)
    ensures stored.None? && hint.Some? ==>
      versioning == Some(Versioning(hint.value, 0)) && hasBulkData == (hint.value >= DATA_RESOURCES)
    ensures stored.None? && hint.None? ==>
      && hasBulkData == HeuristicHasBulkData(publicExportHashesOffset, v, position)
      && versioning
        == (match DerivedVersion(v, container, hasBulkData) case None => None case Some(d) => Some(Versioning(d, 0)))
  {
    if stored.Some? {
      hasBulkData, versioning := stored.value.ue5 >= DATA_RESOURCES, stored;
    } else if hint.Some? {
      hasBulkData, versioning := hint.value >= DATA_RESOURCES, Some(Versioning(hint.value, 0));
    } else {
      hasBulkData := HeuristicHasBulkData(publicExportHashesOffset, v, position);
      var derived := DerivedVersion(v, container, hasBulkData);
      versioning := if derived.Some? then Some(Versioning(derived.value, 0)) else None;
    }
  }

  /** The version that the reader of a written header goes by. */
  ghost function ReadVersion(v: Version, h: ZenHeader, hint: Option<int>, container: ContainerVersion): Option<int> {
    if !h.unversioned then Some(h.versioning.ue5)
    else if hint.Some? then hint
    else DerivedVersion(v, container, HeuristicResult(v, h))
  }

  /** What the heuristic says about a written header. */
  ghost predicate HeuristicResult(v: Version, h: ZenHeader) {
    StoresBundles(v) || (v.OptionalSegmentPackages? && h.versioning.ue5 >= DATA_RESOURCES)
  }

  // ---- The bulk data map ----

  /** `checked_bulk_data_entry_count`: none for a negative, uneven or too large size. */
  function CheckedBulkDataCount(size: int, available: nat): (r: Option<nat>)
    ensures r.Some? <==> 0 <= size <= available && size % 32 == 0
    ensures r.Some? ==> 32 * r.value == size
  {
    if size < 0 || size % 32 != 0 || size > available then None else Some(size / 32)
  }

  /** A 64-bit signed number. */
  function ReadI64(buffer: seq<byte>, at: nat): Option<int> {
    match ReadLe(buffer, at, 8)
    case None => None
    case Some(n) => Some(if n < 0x8000_0000_0000_0000 then n else n - 0x1_0000_0000_0000_0000)
  }

  /** The size in front of the map: records of 32 bytes that end by `end`, with no more bytes than an i64 can count. */
  method ReadBulkCount(buffer: seq<byte>, at: nat, end: nat) returns (count: Option<nat>)
    ensures count.Some? ==> ReadLe(buffer, at, 8) == Some(32 * count.value)
    ensures match ReadLe(buffer, at, 8)
      case None => count.None?
      case Some(size) =>
        count.Some? <==> size < 0x8000_0000_0000_0000 && size % 32 == 0 && at + 8 + size <= end
  {
    if at + 8 <= |buffer| {
      FromLeBound(buffer[at..at + 8]);
    }
    var size := ReadI64(buffer, at);
    if size.None? || end < at + 8 {
      return None;
    }
    count := CheckedBulkDataCount(size.value, end - (at + 8));
  }

  method ReadBulkMap(buffer: seq<byte>, at: nat, end: nat, ghost bulkData: seq<seq<byte>>, ghost held: bool)
    returns (r: Option<seq<seq<byte>>>)
    requires held ==> HasBlob(buffer, at, Le(|Flat(bulkData)|, 8) + Flat(bulkData)) && Wide(bulkData, 32)
    requires held ==> at + 8 + |Flat(bulkData)| <= end && |Flat(bulkData)| < 0x8000_0000
    ensures held ==> r == Some(bulkData)
  {
    if held {
      SplitBlob(buffer, at, Le(|Flat(bulkData)|, 8), Flat(bulkData));
      Ranges();
      ReadsBack(buffer, at, |Flat(bulkData)|, 8);
      FlatLength(bulkData, 32);
    }
    var count := ReadBulkCount(buffer, at, end);
    if count.None? {
      return None;
    }
    r := ReadRecords(buffer, at + 8, count.value, 32, bulkData, held);
  }

  ghost function MapBytes(bulkData: seq<seq<byte>>): seq<byte> {
    Le(|Flat(bulkData)|, 8) + Flat(bulkData)
  }

  lemma {:induction false} PaddingReads(buffer: seq<byte>, at: nat, bulkData: seq<seq<byte>>)
    requires HasBlob(buffer, at, BulkBytes(PaddedBulkMap, at, bulkData))
    ensures ReadLe(buffer, at, 8) == Some(PaddingAt(at))
    ensures HasBlob(buffer, at + 8 + PaddingAt(at), MapBytes(bulkData)) &&
            at + 8 + PaddingAt(at) + |MapBytes(bulkData)| <= |buffer|
    ensures |BulkBytes(PaddedBulkMap, at, bulkData)| == 8 + PaddingAt(at) + 8 + |Flat(bulkData)|
  {
    var padding := PaddingAt(at);
    SplitBlob(buffer, at, Le(padding, 8) + Zeros(padding), MapBytes(bulkData));
    SplitBlob(buffer, at, Le(padding, 8), Zeros(padding));
    Ranges();
    ReadsBack(buffer, at, padding, 8);
    assert BulkBytes(PaddedBulkMap, at, bulkData) != [];
  }

  /** The position behind the padding, which has to end within the section. */
  method SkipPadding(buffer: seq<byte>, at: nat, end: nat) returns (r: Option<nat>)
    ensures r == match ReadLe(buffer, at, 8)
                 case None => None
                 case Some(padding) =>
                   if at + 8 + padding <= end && at + 8 + padding <= |buffer| then Some(at + 8 + padding) else None
  {
    var padding := ReadLe(buffer, at, 8);
    if padding.None? || end < at + 8 || padding.value > end - (at + 8) || at + 8 + padding.value > |buffer| {
      return None;
    }
    r := Some(at + 8 + padding.value);
  }

  /** The bulk data map up to `end`, with the padding in front of it for the versions that have it. */
  method ReadBulk(buffer: seq<byte>, hasBulkData: bool, ue5: int, at: nat, end: int, ghost bulkData: seq<seq<byte>>,
                  ghost held: bool)
    returns (r: Option<seq<seq<byte>>>)
    requires held ==>
      hasBulkData == !LayoutFor(ue5).NoBulkMap? && HasBlob(buffer, at, BulkBytes(LayoutFor(ue5), at, bulkData)) &&
      Wide(bulkData, 32)
    requires held ==> at + |BulkBytes(LayoutFor(ue5), at, bulkData)| == end < 0x8000_0000
    ensures held ==> r == Some(if hasBulkData then bulkData else [])
  {
    if !hasBulkData {
      return Some([]);
    }
    if end < 0 {
      return None;
    }
    if ue5 >= PROPERTY_TAG_COMPLETE_TYPE_NAME {
      r := ReadPaddedBulk(buffer, at, end, bulkData, held);
    } else {
      r := ReadBulkMap(buffer, at, end, bulkData, held);
    }
  }

  method ReadPaddedBulk(buffer: seq<byte>, at: nat, end: nat, ghost bulkData: seq<seq<byte>>, ghost held: bool)
    returns (r: Option<seq<seq<byte>>>)
    requires held ==> HasBlob(buffer, at, BulkBytes(PaddedBulkMap, at, bulkData)) && Wide(bulkData, 32)
    requires held ==> at + |BulkBytes(PaddedBulkMap, at, bulkData)| == end < 0x8000_0000
    ensures held ==> r == Some(bulkData)
  {
    if held {
      PaddingReads(buffer, at, bulkData);
    }
    var position := SkipPadding(buffer, at, end);
    if position.None? {
      return None;
    }
    r := ReadBulkMap(buffer, position.value, end, bulkData, held);
  }

  // ---- Sections by offset ----

  /** Records between two offsets: as many as fit between them. */
  method ReadBetween(buffer: seq<byte>, from: int, to: int, width: nat, ghost records: seq<seq<byte>>, ghost held: bool)
    returns (r: Option<seq<seq<byte>>>)
    requires width > 0
    requires held ==> from >= 0 && to == from + |Flat(records)| && HasRecords(buffer, from, records, width)
    ensures held ==> r == Some(records)
    ensures r.Some? ==> from <= to && from >= 0 && |r.value| == (to - from) / width
  {
    if from < 0 || to < from {
      return None;
    }
    if held {
      FlatLength(records, width);
      DivisionUnique(to - from, width, |records|, 0);
    }
    r := ReadRecords(buffer, from, (to - from) / width, width, records, held);
  }
}
