/** Export data: blobs moved into bundle order for zen, and back into export order for legacy. */
module ExportData {
  import opened Package
  import opened Bytes
  import opened Cursors
  import opened LoadOrder
  import opened ExportBundles

  /** `PACKAGE_FILE_TAG`, which ends a legacy exports file. */
  const PACKAGE_FILE_TAG: nat := 0x9E2A83C1

  /** Serial offset and size of an export; the offset counts from the start of the legacy header. */
  datatype Placement = Placement(serialOffset: nat, serialSize: nat)

  /** The blobs that the first `i` commands place, one after the other. */
  ghost function DataInOrder(order: seq<GraphNode>, blobs: seq<seq<byte>>, i: nat): seq<byte>
    requires i <= |order| && forall n :: n in order ==> n.exportIndex < |blobs|
  {
    if i == 0 then []
    else DataInOrder(order, blobs, i - 1) + if order[i - 1].command.Serialize?
      then blobs[order[i - 1].exportIndex] else []
  }

  ghost predicate BlobSizes(blobs: seq<seq<byte>>, sizes: seq<nat>) {
    |blobs| == |sizes| && forall e :: 0 <= e < |blobs| ==> |blobs[e]| == sizes[e]
  }

  lemma {:induction false} DataLength(order: seq<GraphNode>, blobs: seq<seq<byte>>, sizes: seq<nat>, i: nat)
    requires i <= |order| && BlobSizes(blobs, sizes) && forall n :: n in order ==> n.exportIndex < |blobs|
    ensures |DataInOrder(order, blobs, i)| == DataBefore(order, sizes, i)
  {
    if i > 0 {
      DataLength(order, blobs, sizes, i - 1);
      assert order[i - 1] in order;
    }
  }

  /** The blobs that the placements cut out of an exports buffer. */
  ghost predicate CutOut(buffer: seq<byte>, header: nat, placements: seq<Placement>, blobs: seq<seq<byte>>) {
    && |blobs| == |placements|
    && forall e :: 0 <= e < |blobs| ==> Cuts(buffer, header, placements[e], blobs[e])
  }

  ghost predicate Cuts(buffer: seq<byte>, header: nat, p: Placement, blob: seq<byte>) {
    && header <= p.serialOffset && p.serialOffset - header + p.serialSize <= |buffer|
    && blob == buffer[p.serialOffset - header..p.serialOffset - header + p.serialSize]
  }

  /** End of the furthest blob among those the first `i` commands place. */
  ghost function FurthestEnd(order: seq<GraphNode>, header: nat, placements: seq<Placement>, i: nat): nat
    requires i <= |order| && forall n :: n in order ==> n.exportIndex < |placements|
    requires forall e :: 0 <= e < |placements| ==> header <= placements[e].serialOffset
  {
    if i == 0 then 0
    else if order[i - 1].command.Serialize? then
      var p := placements[order[i - 1].exportIndex];
      Max(FurthestEnd(order, header, placements, i - 1), p.serialOffset - header + p.serialSize)
    else FurthestEnd(order, header, placements, i - 1)
  }

  lemma {:induction false} FurthestEndInside(order: seq<GraphNode>, buffer: seq<byte>, header: nat,
                                             placements: seq<Placement>, blobs: seq<seq<byte>>, i: nat)
    requires CutOut(buffer, header, placements, blobs)
    requires i <= |order| && forall n :: n in order ==> n.exportIndex < |placements|
    ensures FurthestEnd(order, header, placements, i) <= |buffer|
  {
    if i > 0 {
      FurthestEndInside(order, buffer, header, placements, blobs, i - 1);
      assert order[i - 1] in order;
    }
  }

  /** The package tag ends the data that follows the last blob. */
  predicate TagAfter(buffer: seq<byte>, end: nat) {
    end + 4 <= |buffer| && FromLe(buffer[|buffer| - 4..]) == PACKAGE_FILE_TAG
  }

  /** Data after the last blob, without the tag. */
  function ExtraData(buffer: seq<byte>, end: nat): seq<byte>
    requires end <= |buffer|
  {
    if TagAfter(buffer, end) then buffer[end..|buffer| - 4] else buffer[end..]
  }

  /** The next command, number `k` of the load order. */
  method WriteCommand(entry: DepNode, placements: seq<Placement>, totalHeaderSize: nat, buffer: seq<byte>,
                      written: seq<byte>, furthest: nat, ghost order: seq<GraphNode>, ghost blobs: seq<seq<byte>>,
                      ghost k: nat)
    returns (written': seq<byte>, furthest': nat)
    requires k < |order| && entry == NodeOf(order[k])
    requires forall n :: n in order ==> n.exportIndex < |placements|
    requires CutOut(buffer, totalHeaderSize, placements, blobs)
    requires written == DataInOrder(order, blobs, k) && furthest == FurthestEnd(order, totalHeaderSize, placements, k)
    ensures written' == DataInOrder(order, blobs, k + 1) &&
            furthest' == FurthestEnd(order, totalHeaderSize, placements, k + 1)
  {
    written', furthest' := written, furthest;
    assert order[k] in order;
    if entry.command.Serialize? {
      var p := placements[entry.target.exportIndex];
      assert Cuts(buffer, totalHeaderSize, p, blobs[entry.target.exportIndex]);
      var start := p.serialOffset - totalHeaderSize;
      furthest' := Max(furthest, start + p.serialSize);
      written' := written + buffer[start..start + p.serialSize];
    }
  }

  /** The entries of one bundle, appended. */
  method WriteBundle(header: BundleHeader, entries: seq<DepNode>, placements: seq<Placement>, totalHeaderSize: nat,
                     buffer: seq<byte>, written: seq<byte>, furthest: nat, ghost order: seq<GraphNode>,
                     ghost blobs: seq<seq<byte>>)
    returns (written': seq<byte>, furthest': nat)
    requires entries == EntriesOf(order, |order|) && header.End() <= |order|
    requires forall n :: n in order ==> n.exportIndex < |placements|
    requires CutOut(buffer, totalHeaderSize, placements, blobs)
    requires written == DataInOrder(order, blobs, header.firstEntry)
    requires furthest == FurthestEnd(order, totalHeaderSize, placements, header.firstEntry)
    ensures written' == DataInOrder(order, blobs, header.End())
    ensures furthest' == FurthestEnd(order, totalHeaderSize, placements, header.End())
  {
    written', furthest' := written, furthest;
    for i := 0 to header.entryCount
      invariant written' == DataInOrder(order, blobs, header.firstEntry + i)
      invariant furthest' == FurthestEnd(order, totalHeaderSize, placements, header.firstEntry + i)
    {
      written', furthest' :=
        WriteCommand(entries[header.firstEntry + i], placements, totalHeaderSize, buffer, written', furthest',
                                          order, blobs, header.firstEntry + i);
    }
  }

  /** All bundles; fails on the first whose offset in its header is not where its data is. */
  method WriteBundles(headers: seq<BundleHeader>, entries: seq<DepNode>, placements: seq<Placement>,
                      totalHeaderSize: nat, buffer: seq<byte>, ghost order: seq<GraphNode>, ghost sizes: seq<nat>,
                      ghost blobs: seq<seq<byte>>)
    returns (ok: bool, written: seq<byte>, furthest: nat)
    requires forall n :: n in order ==> n.exportIndex < |placements| && n.exportIndex < |sizes|
    requires Tiles(headers, |order|) && entries == EntriesOf(order, |order|)
    requires CutOut(buffer, totalHeaderSize, placements, blobs) && BlobSizes(blobs, sizes)
    ensures ok <==> forall b :: 0 <= b < |headers| ==> StartsAt(headers[b], order, sizes)
    ensures ok ==> written == DataInOrder(order, blobs, |order|)
    ensures ok ==> furthest == FurthestEnd(order, totalHeaderSize, placements, |order|)
  {
    written, furthest := [], 0;
    ghost var at: nat := 0;
    for b := 0 to |headers|
      invariant at == StartOf(headers, b) && at <= |order|
      invariant written == DataInOrder(order, blobs, at)
      invariant furthest == FurthestEnd(order, totalHeaderSize, placements, at)
      invariant forall c :: 0 <= c < b ==> StartsAt(headers[c], order, sizes)
    {
      DataLength(order, blobs, sizes, at);
      assert TileAt(headers, b);
      EndInside(headers, |order|, b);
      if headers[b].serialOffset != |written| {
        assert !StartsAt(headers[b], order, sizes);
        return false, written, furthest;
      }
      written, furthest :=
        WriteBundle(headers[b], entries, placements, totalHeaderSize, buffer, written, furthest, order, blobs);
      at := headers[b].End();
    }
    ok := true;
  }

  /**
   * `write_exports_in_bundle_order`. It fails exactly when a header's offset is not where its data is, which never
   * happens for headers of the builder (`CutUpTo`). The result is every blob in load order followed by what comes
   * after the blobs in the buffer, except the tag.
   */
  method WriteExportsInBundleOrder(headers: seq<BundleHeader>, entries: seq<DepNode>, placements: seq<Placement>,
                                   totalHeaderSize: nat, buffer: seq<byte>,
                                   ghost order: seq<GraphNode>, ghost sizes: seq<nat>, ghost blobs: seq<seq<byte>>)
    returns (r: Result<seq<byte>>)
    requires forall n :: n in order ==> n.exportIndex < |placements| && n.exportIndex < |sizes|
    requires Tiles(headers, |order|) && entries == EntriesOf(order, |order|)
    requires CutOut(buffer, totalHeaderSize, placements, blobs) && BlobSizes(blobs, sizes)
    requires |buffer| >= 4
    ensures r.Success? <==> forall b :: 0 <= b < |headers| ==> StartsAt(headers[b], order, sizes)
    ensures FurthestEnd(order, totalHeaderSize, placements, |order|) <= |buffer|
    ensures r.Success? ==>
      r.value == DataInOrder(order, blobs, |order|)
        + ExtraData(buffer, FurthestEnd(order, totalHeaderSize, placements, |order|))
  {
    FurthestEndInside(order, buffer, totalHeaderSize, placements, blobs, |order|);
    var ok, written,
      furthest := WriteBundles(headers, entries, placements, totalHeaderSize, buffer, order, sizes, blobs);
    if !ok {
      return Failure("Export bundle serial offset does not match its actual placement");
    }
    var extraLength := |buffer| - furthest;
    if extraLength >= 4 && FromLe(buffer[|buffer| - 4..]) == PACKAGE_FILE_TAG {
      extraLength := extraLength - 4;
    }
    if extraLength > 0 {
      written := written + buffer[furthest..furthest + extraLength];
    }
    r := Success(written);
  }

  lemma {:induction false} EndInside(headers: seq<BundleHeader>, n: nat, b: nat)
    requires Tiles(headers, n) && b < |headers|
    ensures headers[b].End() <= n
    decreases |headers| - b
  {
    if b < |headers| - 1 {
      EndInside(headers, n, b + 1);
      assert TileAt(headers, b + 1);
    }
  }

  // ---- Back into export order ----

  /** Where export `e` starts when exports follow each other in export order. */
  ghost function OffsetOf(sizes: seq<nat>, e: nat): nat
    requires e <= |sizes|
  {
    if e == 0 then 0 else OffsetOf(sizes, e - 1) + sizes[e - 1]
  }

  ghost predicate OffsetsAre(offsets: seq<nat>, sizes: seq<nat>) {
    |offsets| == |sizes| && forall e :: 0 <= e < |sizes| ==> offsets[e] == OffsetOf(sizes, e)
  }

  ghost function Concat(blobs: seq<seq<byte>>, e: nat): seq<byte>
    requires e <= |blobs|
  {
    if e == 0 then [] else Concat(blobs, e - 1) + blobs[e - 1]
  }

  /** `build_export_map` for packages whose export data has to be rebuilt. */
  method AssignSerialOffsets(sizes: seq<nat>) returns (offsets: seq<nat>)
    ensures OffsetsAre(offsets, sizes)
  {
    offsets := [];
    var current := 0;
    for e := 0 to |sizes|
      invariant |offsets| == e && forall k :: 0 <= k < e ==> offsets[k] == OffsetOf(sizes, k)
      invariant current == OffsetOf(sizes, e)
    {
      offsets := offsets + [current];
      current := current + sizes[e];
    }
  }

  lemma {:induction false} OffsetsGrow(sizes: seq<nat>, e: nat, f: nat)
    requires e < f <= |sizes|
    ensures OffsetOf(sizes, e) + sizes[e] <= OffsetOf(sizes, f)
  {
    if e < f - 1 {
      OffsetsGrow(sizes, e, f - 1);
    }
  }

  /** Export `e` has been placed by the first `k` commands. */
  ghost predicate Placed(order: seq<GraphNode>, k: nat, e: nat)
    requires k <= |order|
  {
    exists i :: 0 <= i < k && order[i].exportIndex == e && order[i].command.Serialize?
  }

  /** Export `e` has its bytes at its offset in the rebuilt file. */
  ghost predicate InPlace(buffer: seq<byte>, blobs: seq<seq<byte>>, sizes: seq<nat>, e: nat)
    requires BlobSizes(blobs, sizes) && e < |blobs|
  {
    HasBlob(buffer, OffsetOf(sizes, e), blobs[e])
  }

  /** The rebuilt file after the first `k` commands. */
  ghost predicate PartlyRebuilt(buffer: seq<byte>, order: seq<GraphNode>, blobs: seq<seq<byte>>, sizes: seq<nat>,
                                k: nat)
    requires k <= |order| && BlobSizes(blobs, sizes)
  {
    && |buffer| <= OffsetOf(sizes, |sizes|)
    && forall e :: 0 <= e < |blobs| && Placed(order, k, e) ==> InPlace(buffer, blobs, sizes, e)
  }

  /** One blob written at its offset: other placed blobs stay. */
  lemma {:induction false} PlaceBlob(buffer: seq<byte>, order: seq<GraphNode>, blobs: seq<seq<byte>>, sizes: seq<nat>,
                                     k: nat)
    requires k < |order| && BlobSizes(blobs, sizes) && order[k].exportIndex < |blobs|
    requires PartlyRebuilt(buffer, order, blobs, sizes, k) && order[k].command.Serialize?
    ensures PartlyRebuilt(WriteAt(buffer, OffsetOf(sizes, order[k].exportIndex), blobs[order[k].exportIndex]), order,
                          blobs, sizes, k + 1)
  {
    var e := order[k].exportIndex;
    var at := OffsetOf(sizes, e);
    var after := WriteAt(buffer, at, blobs[e]);
    EndOfExport(sizes, e);
    if blobs[e] != [] {
      WriteAtByte(buffer, at, blobs[e], 0);
    }
    WriteAtHolds(buffer, at, blobs[e]);
    forall f | 0 <= f < |blobs| && Placed(order, k + 1, f) ensures InPlace(after, blobs, sizes, f) {
      if f != e {
        var i :| 0 <= i < k + 1 && order[i].exportIndex == f && order[i].command.Serialize?;
          assert Placed(order, k, f) && InPlace(buffer, blobs, sizes, f);
        if f < e {
          OffsetsGrow(sizes, f, e);
        } else {
          OffsetsGrow(sizes, e, f);
        }
        WriteAtKeeps(buffer, at, blobs[e], OffsetOf(sizes, f), blobs[f]);
      }
    }
  }

  lemma {:induction false} SkipCreate(buffer: seq<byte>, order: seq<GraphNode>, blobs: seq<seq<byte>>, sizes: seq<nat>,
                                      k: nat)
    requires k < |order| && BlobSizes(blobs, sizes) && order[k].command.Create?
    requires PartlyRebuilt(buffer, order, blobs, sizes, k)
    ensures PartlyRebuilt(buffer, order, blobs, sizes, k + 1)
  {
    forall f | 0 <= f < |blobs| && Placed(order, k + 1, f) ensures InPlace(buffer, blobs, sizes, f) {
      var i :| 0 <= i < k + 1 && order[i].exportIndex == f && order[i].command.Serialize?;
      assert i < k && Placed(order, k, f);
    }
  }

  lemma {:induction false} EndOfExport(sizes: seq<nat>, e: nat)
    requires e < |sizes|
    ensures OffsetOf(sizes, e) + sizes[e] <= OffsetOf(sizes, |sizes|)
  {
    OffsetsGrow(sizes, e, |sizes|);
  }

  /** Once every export has been placed the file is the blobs in export order. */
  lemma {:induction false} AllPlaced(buffer: seq<byte>, blobs: seq<seq<byte>>, sizes: seq<nat>, n: nat)
    requires BlobSizes(blobs, sizes) && n <= |blobs|
    requires forall e :: 0 <= e < n ==> InPlace(buffer, blobs, sizes, e)
    ensures OffsetOf(sizes, n) <= |buffer| && buffer[..OffsetOf(sizes, n)] == Concat(blobs, n)
  {
    if n > 0 {
      AllPlaced(buffer, blobs, sizes, n - 1);
      assert InPlace(buffer, blobs, sizes, n - 1);
      AppendBlob(buffer, OffsetOf(sizes, n - 1), blobs[n - 1]);
    }
  }

  lemma {:induction false} AppendBlob(buffer: seq<byte>, at: nat, blob: seq<byte>)
    requires at <= |buffer| && HasBlob(buffer, at, blob)
    ensures at + |blob| <= |buffer| && buffer[..at + |blob|] == buffer[..at] + blob
  {
    if blob != [] {
      assert buffer[..at + |blob|] == buffer[..at] + buffer[at..at + |blob|];
    }
  }

  /** A zen package: its header, the blobs in load order, and data after them. */
  ghost predicate ZenData(raw: seq<byte>, headerSize: nat, order: seq<GraphNode>, blobs: seq<seq<byte>>,
                          extra: seq<byte>)
    requires forall n :: n in order ==> n.exportIndex < |blobs|
  {
    headerSize <= |raw| && raw[headerSize..] == DataInOrder(order, blobs, |order|) + extra
  }

  lemma {:induction false} BlobInData(order: seq<GraphNode>, blobs: seq<seq<byte>>, sizes: seq<nat>, k: nat, n: nat)
    requires k < n <= |order| && BlobSizes(blobs, sizes) && forall g :: g in order ==> g.exportIndex < |blobs|
    requires order[k].command.Serialize?
    ensures HasBlob(DataInOrder(order, blobs, n), DataBefore(order, sizes, k), blobs[order[k].exportIndex])
  {
    DataLength(order, blobs, sizes, k);
    assert order[k] in order;
    if k < n - 1 {
      BlobInData(order, blobs, sizes, k, n - 1);
    }
  }

  /** The blob of command `k` is where the running offset says. */
  lemma {:induction false} BlobInRaw(raw: seq<byte>, headerSize: nat, order: seq<GraphNode>, blobs: seq<seq<byte>>,
                                     sizes: seq<nat>, extra: seq<byte>, k: nat)
    requires BlobSizes(blobs, sizes) && forall n :: n in order ==> n.exportIndex < |blobs|
    requires ZenData(raw, headerSize, order, blobs, extra)
    requires k < |order| && order[k].command.Serialize?
    ensures order[k].exportIndex < |blobs|
    ensures var from := headerSize + DataBefore(order, sizes, k); var blob := blobs[order[k].exportIndex];
      from + |blob| <= |raw| && raw[from..from + |blob|] == blob
  {
    assert order[k] in order;
    var at, blob := DataBefore(order, sizes, k), blobs[order[k].exportIndex];
    var data := raw[headerSize..];
    BlobInData(order, blobs, sizes, k, |order|);
    DataLength(order, blobs, sizes, k);
    DataBeforeEnd(order, sizes, k);
    DataLength(order, blobs, sizes, |order|);
    assert data[at..at + |blob|] == DataInOrder(order, blobs, |order|)[at..at + |blob|];
    assert raw[headerSize + at..headerSize + at + |blob|] == data[at..at + |blob|];
  }

  lemma {:induction false} DataBeforeGrows(order: seq<GraphNode>, sizes: seq<nat>, j: nat, n: nat)
    requires j <= n <= |order| && forall g :: g in order ==> g.exportIndex < |sizes|
    ensures DataBefore(order, sizes, j) <= DataBefore(order, sizes, n)
    decreases n
  {
    if j < n {
      DataBeforeGrows(order, sizes, j, n - 1);
    }
  }

  lemma {:induction false} DataBeforeEnd(order: seq<GraphNode>, sizes: seq<nat>, k: nat)
    requires k < |order| && forall g :: g in order ==> g.exportIndex < |sizes|
    ensures order[k].command.Serialize? ==>
      DataBefore(order, sizes, k) + sizes[order[k].exportIndex] <= DataBefore(order, sizes, |order|)
  {
    assert order[k] in order;
    DataBeforeGrows(order, sizes, k + 1, |order|);
  }

  /** Copying the blob of command `k` from the running offset to its export's offset. */
  lemma {:induction false} CopyPlaces(raw: seq<byte>, headerSize: nat, buffer: seq<byte>, order: seq<GraphNode>,
                                      blobs: seq<seq<byte>>, sizes: seq<nat>, extra: seq<byte>, k: nat, at: nat)
    requires BlobSizes(blobs, sizes) && forall n :: n in order ==> n.exportIndex < |blobs|
    requires ZenData(raw, headerSize, order, blobs, extra)
    requires k < |order| && order[k].command.Serialize? && at == headerSize + DataBefore(order, sizes, k)
    requires PartlyRebuilt(buffer, order, blobs, sizes, k)
    ensures order[k].exportIndex < |sizes| && at + sizes[order[k].exportIndex] <= |raw|
    ensures var e := order[k].exportIndex;
      PartlyRebuilt(WriteAt(buffer, OffsetOf(sizes, e), raw[at..at + sizes[e]]), order, blobs, sizes, k + 1)
  {
    BlobInRaw(raw, headerSize, order, blobs, sizes, extra, k);
    PlaceBlob(buffer, order, blobs, sizes, k);
  }

  /** One command of a bundle: a Serialize command copies its blob from the running offset to its final place. */
  method RebuildCommand(entry: DepNode, sizes: seq<nat>, offsets: seq<nat>, raw: seq<byte>, at: nat, buffer: seq<byte>,
                        ghost headerSize: nat, ghost order: seq<GraphNode>, ghost blobs: seq<seq<byte>>,
                        ghost extra: seq<byte>, ghost k: nat)
    returns (at': nat, buffer': seq<byte>)
    requires k < |order| && entry == NodeOf(order[k])
    requires BlobSizes(blobs, sizes) && OffsetsAre(offsets, sizes)
    requires forall g :: g in order ==> g.exportIndex < |blobs|
    requires ZenData(raw, headerSize, order, blobs, extra)
    requires at == headerSize + DataBefore(order, sizes, k)
    requires PartlyRebuilt(buffer, order, blobs, sizes, k)
    ensures at' == headerSize + DataBefore(order, sizes, k + 1)
    ensures PartlyRebuilt(buffer', order, blobs, sizes, k + 1)
  {
    at', buffer' := at, buffer;
    assert order[k] in order;
    if entry.command.Serialize? {
      var e := entry.target.exportIndex;
      CopyPlaces(raw, headerSize, buffer, order, blobs, sizes, extra, k, at);
      buffer' := WriteAt(buffer, offsets[e], raw[at..at + sizes[e]]);
      at' := at + sizes[e];
    } else {
      SkipCreate(buffer, order, blobs, sizes, k);
    }
  }

  /** One bundle. A legacy container does not store where it starts; it follows the bundle before it. */
  method RebuildBundle(header: BundleHeader, legacyContainer: bool, headerSize: nat, running: nat,
                       entries: seq<DepNode>, sizes: seq<nat>, offsets: seq<nat>, raw: seq<byte>, buffer: seq<byte>,
                       ghost order: seq<GraphNode>, ghost blobs: seq<seq<byte>>, ghost extra: seq<byte>)
    returns (end: nat, buffer': seq<byte>)
    requires entries == EntriesOf(order, |order|) && header.End() <= |order|
    requires BlobSizes(blobs, sizes) && OffsetsAre(offsets, sizes)
    requires forall g :: g in order ==> g.exportIndex < |blobs|
    requires ZenData(raw, headerSize, order, blobs, extra)
    requires if legacyContainer
      then running == headerSize + DataBefore(order, sizes, header.firstEntry) else StartsAt(header, order, sizes)
    requires PartlyRebuilt(buffer, order, blobs, sizes, header.firstEntry)
    ensures end == headerSize + DataBefore(order, sizes, header.End())
    ensures PartlyRebuilt(buffer', order, blobs, sizes, header.End())
  {
    end, buffer' := if legacyContainer then running else headerSize + header.serialOffset, buffer;
    for i := 0 to header.entryCount
      invariant end == headerSize + DataBefore(order, sizes, header.firstEntry + i)
      invariant PartlyRebuilt(buffer', order, blobs, sizes, header.firstEntry + i)
    {
      end, buffer' := RebuildCommand(entries[header.firstEntry + i], sizes, offsets, raw, end, buffer',
                                     headerSize, order, blobs, extra, header.firstEntry + i);
    }
  }

  /** Bundle `b` starts where the bundle before it ends, and so does its data. */
  ghost predicate Follows(headers: seq<BundleHeader>, order: seq<GraphNode>, sizes: seq<nat>, b: nat)
    requires (forall n :: n in order ==> n.exportIndex < |sizes|) && b < |headers|
  {
    && headers[b].firstEntry == StartOf(headers, b) && headers[b].End() == StartOf(headers, b + 1) <= |order|
    && StartsAt(headers[b], order, sizes)
    && DataBefore(order, sizes, headers[b].firstEntry) <= DataBefore(order, sizes, headers[b].End())
  }

  ghost predicate AllFollow(headers: seq<BundleHeader>, order: seq<GraphNode>, sizes: seq<nat>)
    requires forall n :: n in order ==> n.exportIndex < |sizes|
  {
    StartOf(headers, |headers|) == |order| && forall b :: 0 <= b < |headers| ==> Follows(headers, order, sizes, b)
  }

  lemma {:induction false} CutBundlesFollow(headers: seq<BundleHeader>, order: seq<GraphNode>, sizes: seq<nat>)
    requires (forall n :: n in order ==> n.exportIndex < |sizes|) && CutUpTo(headers, order, sizes, |order|)
    ensures AllFollow(headers, order, sizes)
  {
    forall b | 0 <= b < |headers| ensures Follows(headers, order, sizes, b) {
      assert TileAt(headers, b);
      EndInside(headers, |order|, b);
      DataBeforeGrows(order, sizes, headers[b].firstEntry, headers[b].End());
    }
  }

  method RebuildNext(headers: seq<BundleHeader>, b: nat, legacyContainer: bool, headerSize: nat, running: nat,
                     entries: seq<DepNode>, sizes: seq<nat>, offsets: seq<nat>, raw: seq<byte>, buffer: seq<byte>,
                     ghost order: seq<GraphNode>, ghost blobs: seq<seq<byte>>, ghost extra: seq<byte>)
    returns (end: nat, buffer': seq<byte>)
    requires entries == EntriesOf(order, |order|)
    requires BlobSizes(blobs, sizes) && OffsetsAre(offsets, sizes)
    requires forall g :: g in order ==> g.exportIndex < |blobs|
    requires ZenData(raw, headerSize, order, blobs, extra)
    requires b < |headers| && Follows(headers, order, sizes, b)
    requires running == headerSize + DataBefore(order, sizes, StartOf(headers, b))
    requires PartlyRebuilt(buffer, order, blobs, sizes, StartOf(headers, b))
    ensures end == headerSize + DataBefore(order, sizes, StartOf(headers, b + 1)) >= running
    ensures PartlyRebuilt(buffer', order, blobs, sizes, StartOf(headers, b + 1))
  {
    end, buffer' :=
      RebuildBundle(headers[b], legacyContainer, headerSize, running, entries, sizes, offsets, raw, buffer, order,
                    blobs, extra);
  }

  method RebuildBundles(headers: seq<BundleHeader>, legacyContainer: bool, headerSize: nat, entries: seq<DepNode>,
                        sizes: seq<nat>, offsets: seq<nat>, raw: seq<byte>, ghost order: seq<GraphNode>,
                        ghost blobs: seq<seq<byte>>, ghost extra: seq<byte>)
    returns (endOfLast: nat, buffer: seq<byte>)
    requires entries == EntriesOf(order, |order|)
    requires BlobSizes(blobs, sizes) && OffsetsAre(offsets, sizes)
    requires forall g :: g in order ==> g.exportIndex < |blobs|
    requires AllFollow(headers, order, sizes)
    requires ZenData(raw, headerSize, order, blobs, extra)
    ensures endOfLast == if headers == [] then 0 else headerSize + DataBefore(order, sizes, |order|)
    ensures PartlyRebuilt(buffer, order, blobs, sizes, |order|)
  {
    endOfLast, buffer := 0, [];
    var running := headerSize;
    for b := 0 to |headers|
      invariant StartOf(headers, b) <= |order|
      invariant running == headerSize + DataBefore(order, sizes, StartOf(headers, b))
      invariant endOfLast == if b == 0 then 0 else running
      invariant PartlyRebuilt(buffer, order, blobs, sizes, StartOf(headers, b))
    {
      assert Follows(headers, order, sizes, b);
      running, buffer :=
        RebuildNext(headers, b, legacyContainer, headerSize, running, entries, sizes, offsets, raw, buffer, order,
                    blobs, extra);
      endOfLast := Max(endOfLast, running);
    }
  }

  /**
   * `rebuild_asset_export_data_internal`, which is called for packages with bundles only: the blobs in export order,
   * what followed them in the zen package, and the package tag.
   */
  method RebuildExportsData(headers: seq<BundleHeader>, legacyContainer: bool, headerSize: nat, entries: seq<DepNode>,
                            sizes: seq<nat>, raw: seq<byte>, ghost order: seq<GraphNode>, ghost blobs: seq<seq<byte>>,
                            ghost extra: seq<byte>)
    returns (result: seq<byte>)
    requires headers != [] && entries == EntriesOf(order, |order|)
    requires BlobSizes(blobs, sizes) && forall g :: g in order ==> g.exportIndex < |blobs|
    requires CutUpTo(headers, order, sizes, |order|)
    requires forall e :: 0 <= e < |blobs| ==> Placed(order, |order|, e)
    requires ZenData(raw, headerSize, order, blobs, extra)
    ensures result == Concat(blobs, |blobs|) + extra + Le(PACKAGE_FILE_TAG, 4)
  {
    var offsets := AssignSerialOffsets(sizes);
    var total := TotalSize(sizes);
    CutBundlesFollow(headers, order, sizes);
    var endOfLast,
      buffer := RebuildBundles(headers, legacyContainer, headerSize, entries, sizes, offsets, raw, order, blobs, extra);
    AllPlaced(buffer, blobs, sizes, |blobs|);
    assert buffer[..total] == buffer;
    DataAfterLast(raw, headerSize, order, blobs, sizes, extra);
    result := Appended(buffer, total, raw[endOfLast..]);
    result := Appended(result, |result|, Le(PACKAGE_FILE_TAG, 4));
  }

  /** Writing where the data ends so far. */
  method Appended(buffer: seq<byte>, end: nat, data: seq<byte>) returns (result: seq<byte>)
    requires end == |buffer|
    ensures result == buffer + data
  {
    result := WriteAt(buffer, end, data);
  }

  method TotalSize(sizes: seq<nat>) returns (total: nat)
    ensures total == OffsetOf(sizes, |sizes|)
  {
    total := 0;
    for e := 0 to |sizes|
      invariant total == OffsetOf(sizes, e)
    {
      total := total + sizes[e];
    }
  }

  lemma {:induction false} DataAfterLast(raw: seq<byte>, headerSize: nat, order: seq<GraphNode>, blobs: seq<seq<byte>>,
                                         sizes: seq<nat>, extra: seq<byte>)
    requires BlobSizes(blobs, sizes) && forall n :: n in order ==> n.exportIndex < |blobs|
    requires ZenData(raw, headerSize, order, blobs, extra)
    ensures var end := headerSize + DataBefore(order, sizes, |order|); end <= |raw| && raw[end..] == extra
  {
    DataLength(order, blobs, sizes, |order|);
    var end := headerSize + DataBefore(order, sizes, |order|);
    assert raw[end..] == raw[headerSize..][end - headerSize..];
  }

  // ---- Legacy to zen to legacy ----

  /** Exports that follow each other from the end of the header on, in export order. */
  ghost predicate Contiguous(placements: seq<Placement>, header: nat, sizes: seq<nat>) {
    && |placements| == |sizes|
    && forall e :: 0 <= e < |sizes| ==> placements[e] == Placement(header + OffsetOf(sizes, e), sizes[e])
  }

  lemma {:induction false} ConcatLength(blobs: seq<seq<byte>>, sizes: seq<nat>, n: nat)
    requires BlobSizes(blobs, sizes) && n <= |blobs|
    ensures |Concat(blobs, n)| == OffsetOf(sizes, n)
  {
    if n > 0 {
      ConcatLength(blobs, sizes, n - 1);
    }
  }

  lemma {:induction false} BlobInConcat(blobs: seq<seq<byte>>, sizes: seq<nat>, e: nat, n: nat)
    requires BlobSizes(blobs, sizes) && e < n <= |blobs|
    ensures OffsetOf(sizes, e) + sizes[e] <= |Concat(blobs, n)|
    ensures Concat(blobs, n)[OffsetOf(sizes, e)..OffsetOf(sizes, e) + sizes[e]] == blobs[e]
  {
    ConcatLength(blobs, sizes, n - 1);
    if e < n - 1 {
      BlobInConcat(blobs, sizes, e, n - 1);
      SliceOfFront(Concat(blobs, n - 1), blobs[n - 1], OffsetOf(sizes, e), OffsetOf(sizes, e) + sizes[e]);
    }
  }

  /** Contiguous placements cut the blobs out of their concatenation. */
  lemma {:induction false} ContiguousCutsOut(blobs: seq<seq<byte>>, sizes: seq<nat>, placements: seq<Placement>,
                                             header: nat, rest: seq<byte>)
    requires BlobSizes(blobs, sizes) && Contiguous(placements, header, sizes)
    ensures CutOut(Concat(blobs, |blobs|) + rest, header, placements, blobs)
  {
    var all := Concat(blobs, |blobs|);
    forall e | 0 <= e < |blobs| ensures Cuts(all + rest, header, placements[e], blobs[e]) {
      BlobInConcat(blobs, sizes, e, |blobs|);
      SliceOfFront(all, rest, OffsetOf(sizes, e), OffsetOf(sizes, e) + sizes[e]);
    }
  }

  lemma {:induction false} SliceOfFront(front: seq<byte>, rest: seq<byte>, i: nat, j: nat)
    requires i <= j <= |front|
    ensures (front + rest)[i..j] == front[i..j]
  {
  }

  /** The furthest end lies within the export data and at least at the end of each export placed so far. */
  lemma {:induction false} FurthestEndBounds(order: seq<GraphNode>, header: nat, placements: seq<Placement>,
                                             sizes: seq<nat>, i: nat, e: nat)
    requires Contiguous(placements, header, sizes) && i <= |order| && forall n :: n in order ==> n.exportIndex < |sizes|
    ensures FurthestEnd(order, header, placements, i) <= OffsetOf(sizes, |sizes|)
    ensures Placed(order, i, e) && e < |sizes| ==>
      OffsetOf(sizes, e) + sizes[e] <= FurthestEnd(order, header, placements, i)
    decreases i
  {
    if i > 0 {
      FurthestEndBounds(order, header, placements, sizes, i - 1, e);
      assert order[i - 1] in order;
      EndOfExport(sizes, order[i - 1].exportIndex);
      if Placed(order, i, e) {
        var k :| 0 <= k < i && order[k].exportIndex == e && order[k].command.Serialize?;
        assert k == i - 1 || Placed(order, i - 1, e);
      }
    }
  }

  lemma {:induction false} FurthestIsTotal(order: seq<GraphNode>, header: nat, placements: seq<Placement>,
                                           sizes: seq<nat>)
    requires Contiguous(placements, header, sizes) && forall n :: n in order ==> n.exportIndex < |sizes|
    requires forall e :: 0 <= e < |sizes| ==> Placed(order, |order|, e)
    ensures FurthestEnd(order, header, placements, |order|) == OffsetOf(sizes, |sizes|)
  {
    if sizes == [] {
      FurthestEndBounds(order, header, placements, sizes, |order|, 0);
    } else {
      FurthestEndBounds(order, header, placements, sizes, |order|, |sizes| - 1);
    }
  }

  /** The extra data as a part of what follows the blobs. */
  lemma {:induction false} ExtraDataIs(all: seq<byte>, rest: seq<byte>)
    ensures TagAfter(all + rest, |all|) <==> |rest| >= 4 && FromLe(rest[|rest| - 4..]) == PACKAGE_FILE_TAG
    ensures ExtraData(all + rest, |all|) == if TagAfter(all + rest, |all|) then rest[..|rest| - 4] else rest
  {
    var buffer := all + rest;
    assert buffer[|all|..] == rest;
    if |rest| >= 4 {
      assert buffer[|buffer| - 4..] == rest[|rest| - 4..];
      assert buffer[|all|..|buffer| - 4] == rest[..|rest| - 4];
    }
  }

  lemma {:induction false} TagRejoins(rest: seq<byte>)
    requires |rest| >= 4 && FromLe(rest[|rest| - 4..]) == PACKAGE_FILE_TAG
    ensures rest[..|rest| - 4] + Le(PACKAGE_FILE_TAG, 4) == rest
  {
    FromLeRoundTrip(rest[|rest| - 4..]);
  }

  /** What follows the blobs is the extra data, and the tag where there is one. */
  lemma {:induction false} ExtraDataSplits(all: seq<byte>, rest: seq<byte>)
    ensures ExtraData(all + rest, |all|) + Le(PACKAGE_FILE_TAG, 4) == rest <==> TagAfter(all + rest, |all|)
    ensures |ExtraData(all + rest, |all|)| + 4 == |rest| || |ExtraData(all + rest, |all|)| == |rest|
    ensures |ExtraData(all + rest, |all|)| + 4 == |rest| <==> TagAfter(all + rest, |all|)
  {
    ExtraDataIs(all, rest);
    if TagAfter(all + rest, |all|) {
      TagRejoins(rest);
    } else {
      assert |rest + Le(PACKAGE_FILE_TAG, 4)| == |rest| + 4;
    }
  }

  /**
   * The exports file is its blobs in export order and `rest`; bundles cut from a load order say how zen arranges them.
   */
  ghost predicate InExportOrder(headers: seq<BundleHeader>, entries: seq<DepNode>, placements: seq<Placement>,
                                sizes: seq<nat>, header: nat, buffer: seq<byte>, order: seq<GraphNode>,
                                blobs: seq<seq<byte>>, rest: seq<byte>)
  {
    && entries == EntriesOf(order, |order|) && BlobSizes(blobs, sizes)
    && (forall n :: n in order ==> n.exportIndex < |sizes|) && CutUpTo(headers, order, sizes, |order|)
    && (forall e :: 0 <= e < |sizes| ==> Placed(order, |order|, e))
    && Contiguous(placements, header, sizes)
    && buffer == Concat(blobs, |blobs|) + rest && |buffer| >= 4
  }

  /**
   * The end of `serialize_zen_asset`: from container version NoExportInfo on the exports file is taken as it is, before
   * that its blobs are moved into bundle order. Bundles cut from a load order never make it fail.
   */
  method ExportsToZen(cookedOffsets: bool, headers: seq<BundleHeader>, entries: seq<DepNode>,
                      placements: seq<Placement>, legacyHeaderSize: nat, zenHeader: seq<byte>, buffer: seq<byte>,
                      ghost sizes: seq<nat>, ghost order: seq<GraphNode>, ghost blobs: seq<seq<byte>>,
                      ghost rest: seq<byte>)
    returns (raw: Result<seq<byte>>)
    requires !cookedOffsets ==>
      InExportOrder(headers, entries, placements, sizes, legacyHeaderSize, buffer, order, blobs, rest)
    ensures raw.Success? && |zenHeader| <= |raw.value|
    ensures cookedOffsets ==> raw.value[|zenHeader|..] == buffer
    ensures !cookedOffsets ==>
      ZenData(raw.value, |zenHeader|, order, blobs, ExtraData(buffer, |Concat(blobs, |blobs|)|))
  {
    if cookedOffsets {
      assert (zenHeader + buffer)[|zenHeader|..] == buffer;
      return Success(zenHeader + buffer);
    }
    ContiguousCutsOut(blobs, sizes, placements, legacyHeaderSize, rest);
    FurthestIsTotal(order, legacyHeaderSize, placements, sizes);
    ConcatLength(blobs, sizes, |blobs|);
    var written :=
      WriteExportsInBundleOrder(headers, entries, placements, legacyHeaderSize, buffer, order, sizes, blobs);
    assert (zenHeader + written.value)[|zenHeader|..] == written.value;
    return Success(zenHeader + written.value);
  }

  /** The exports file of `serialize_asset`: rebuilt when there are bundles, otherwise what follows the zen header. */
  method ExportsToLegacy(headers: seq<BundleHeader>, legacyContainer: bool, headerSize: nat, entries: seq<DepNode>,
                         sizes: seq<nat>, raw: seq<byte>, ghost order: seq<GraphNode>, ghost blobs: seq<seq<byte>>,
                         ghost extra: seq<byte>)
    returns (result: seq<byte>)
    requires headerSize <= |raw|
    requires headers != [] ==>
      && entries == EntriesOf(order, |order|) && BlobSizes(blobs, sizes) &&
         (forall g :: g in order ==> g.exportIndex < |blobs|)
      && CutUpTo(headers, order, sizes, |order|) && (forall e :: 0 <= e < |blobs| ==> Placed(order, |order|, e))
      && ZenData(raw, headerSize, order, blobs, extra)
    ensures result == if headers != []
      then Concat(blobs, |blobs|) + extra + Le(PACKAGE_FILE_TAG, 4) else raw[headerSize..]
  {
    var needsToRebuild := headers != [];
    if needsToRebuild {
      result := RebuildExportsData(headers, legacyContainer, headerSize, entries, sizes, raw, order, blobs, extra);
    } else {
      result := raw[headerSize..];
    }
  }

  /**
   * A legacy exports file goes to zen and back. Under cooked offsets (container version NoExportInfo and later) no
   * bundle is built and the file comes back byte for byte. Before that a file with bundles comes back exactly when it
   * ends with the package tag, and one without exactly when it does not.
   */
  method ConvertExportsAndBack(cookedOffsets: bool, headers: seq<BundleHeader>, entries: seq<DepNode>,
                               placements: seq<Placement>, sizes: seq<nat>, legacyHeaderSize: nat,
                               zenHeader: seq<byte>, buffer: seq<byte>, legacyContainer: bool,
                               ghost order: seq<GraphNode>, ghost blobs: seq<seq<byte>>, ghost rest: seq<byte>)
    returns (rebuilt: Result<seq<byte>>)
    requires cookedOffsets ==> headers == []
    requires !cookedOffsets ==>
      InExportOrder(headers, entries, placements, sizes, legacyHeaderSize, buffer, order, blobs, rest)
    ensures rebuilt.Success?
    ensures rebuilt.value == buffer <==>
      cookedOffsets || (headers != [] <==> TagAfter(buffer, OffsetOf(sizes, |sizes|)))
  {
    ghost var all := Concat(blobs, |blobs|);
    var raw := ExportsToZen(cookedOffsets, headers, entries, placements, legacyHeaderSize, zenHeader, buffer, sizes,
                            order, blobs, rest);
    ghost var extra := if cookedOffsets then [] else ExtraData(buffer, |all|);
    var legacy :=
      ExportsToLegacy(headers, legacyContainer, |zenHeader|, entries, sizes, raw.value, order, blobs, extra);
    if !cookedOffsets {
      ConcatLength(blobs, sizes, |blobs|);
      if headers == [] {
        NoBundleNoData(headers, order, blobs, sizes);
        assert legacy == ExtraData(buffer, 0) && OffsetOf(sizes, |sizes|) == 0;
      } else {
        ComesBack(all, rest, legacy);
      }
    }
    rebuilt := Success(legacy);
  }

  lemma {:induction false} ComesBack(all: seq<byte>, rest: seq<byte>, legacy: seq<byte>)
    requires legacy == all + ExtraData(all + rest, |all|) + Le(PACKAGE_FILE_TAG, 4)
    ensures legacy == all + rest <==> TagAfter(all + rest, |all|)
  {
    var extra, tag := ExtraData(all + rest, |all|), Le(PACKAGE_FILE_TAG, 4);
    assert legacy == all + (extra + tag);
    SamePrefix(all, extra + tag, rest);
    ExtraDataSplits(all, rest);
  }

  /** Without bundles nothing is ordered, so there is no export and no blob. */
  lemma {:induction false} NoBundleNoData(headers: seq<BundleHeader>, order: seq<GraphNode>, blobs: seq<seq<byte>>,
                                          sizes: seq<nat>)
    requires headers == [] && BlobSizes(blobs, sizes)
    requires (forall n :: n in order ==> n.exportIndex < |sizes|) && CutUpTo(headers, order, sizes, |order|)
    requires forall e :: 0 <= e < |sizes| ==> Placed(order, |order|, e)
    ensures order == [] && sizes == [] && blobs == []
  {
    assert Tiles(headers, |order|);
    assert |sizes| > 0 ==> Placed(order, |order|, 0);
  }

  lemma {:induction false} SamePrefix(all: seq<byte>, s: seq<byte>, t: seq<byte>)
    ensures all + s == all + t <==> s == t
  {
    assert (all + s)[|all|..] == s && (all + t)[|all|..] == t;
  }
}
