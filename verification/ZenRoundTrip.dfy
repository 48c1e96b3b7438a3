/** A zen package header written and read again. */
module ZenRoundTrip {
  import opened Package
  import opened Bytes
  import opened Cursors
  import opened Records
  import opened StoreEntries
  import opened ZenLayout
  import opened ZenReader

  // ---- Sections in a row ----

  /** Sections behind a summary that gives the offsets of all but the first two. */
  ghost predicate Placed(buffer: seq<byte>, base: nat, sections: seq<seq<byte>>, offsets: seq<int>) {
    && HasBlob(buffer, base, Flat(sections)) && base + |Flat(sections)| == |buffer| < 0x8000_0000
    && |offsets| + 2 == |sections|
    && forall k: nat :: k < |offsets| ==> OffsetIs(base, sections, offsets, k)
  }

  lemma {:induction false} StartsGrow(records: seq<seq<byte>>, j: nat, k: nat)
    requires j <= k <= |records|
    ensures StartOf(records, j) <= StartOf(records, k)
    decreases k
  {
    if j < k {
      StartsGrow(records, j, k - 1);
      FlatAppend(records[..k - 1], records[k - 1]);
      assert records[..k] == records[..k - 1] + [records[k - 1]];
    }
  }

  /** Each section is at its start, and the next one follows it. */
  lemma {:induction false} SectionPlaced(buffer: seq<byte>, base: nat, sections: seq<seq<byte>>, offsets: seq<int>,
                                         k: nat)
    requires Placed(buffer, base, sections, offsets) && k < |sections|
    ensures HasBlob(buffer, base + StartOf(sections, k), sections[k])
    ensures StartOf(sections, k + 1) == StartOf(sections, k) + |sections[k]|
    ensures base + StartOf(sections, k + 1) <= |buffer|
  {
    RecordAt(buffer, base, sections, k);
    StartsGrow(sections, k + 1, |sections|);
    assert sections[..|sections|] == sections;
  }

  /** A section of records lies between its offset and the next. */
  lemma {:induction false} RecordSection(buffer: seq<byte>, base: nat, sections: seq<seq<byte>>, offsets: seq<int>,
                                         k: nat, records: seq<seq<byte>>, width: nat)
    requires Placed(buffer, base, sections, offsets) && k + 1 < |offsets|
    requires sections[k + 2] == Flat(records) && Wide(records, width)
    ensures offsets[k] >= 0 && offsets[k + 1] == offsets[k] + |Flat(records)| &&
            HasRecords(buffer, offsets[k], records, width)
  {
    SectionPlaced(buffer, base, sections, offsets, k + 2);
    assert OffsetIs(base, sections, offsets, k) && OffsetIs(base, sections, offsets, k + 1);
  }

  /** A last section is at its offset. */
  lemma {:induction false} OffsetSection(buffer: seq<byte>, base: nat, sections: seq<seq<byte>>, offsets: seq<int>,
                                         k: nat)
    requires Placed(buffer, base, sections, offsets) && k < |offsets|
    ensures 0 <= offsets[k] == base + StartOf(sections, k + 2) &&
            (k + 2 < |sections| ==> HasBlob(buffer, offsets[k], sections[k + 2]))
    ensures k + 2 < |sections| ==> offsets[k] + |sections[k + 2]| <= |buffer|
  {
    assert OffsetIs(base, sections, offsets, k);
    if k + 2 < |sections| {
      SectionPlaced(buffer, base, sections, offsets, k + 2);
    }
  }

  // ---- The sections of a header ----

  /** The buffer is a header that fits 32-bit offsets, as it is written. */
  ghost predicate WrittenHeader(buffer: seq<byte>, v: Version, codecs: PartCodecs, h: ZenHeader) {
    && Modern(v) && h.Valid() && codecs.Lawful()
    && buffer == HeaderBytes(v, codecs, h) && |buffer| < 0x8000_0000
  }

  /** What is known of the sections of a header behind its summary. */
  ghost predicate SectionsHeld(buffer: seq<byte>, v: Version, codecs: PartCodecs, h: ZenHeader,
                               sections: seq<seq<byte>>, offsets: seq<int>)
  {
    && Placed(buffer, SummarySize(v), sections, offsets) && h.Valid() && codecs.Lawful()
    && FrontIs(v, codecs, h, sections) && MapsAre(h, sections) && BackIs(v, codecs, h, sections)
  }

  /** The summary in front. */
  ghost predicate SummaryHeld(buffer: seq<byte>, v: Version, h: ZenHeader, summary: Summary) {
    && HasBlob(buffer, 0, SummaryBytes(summary)) && SmallOffsets(summary) && |summary.offsets| == OffsetCount(v)
    && summary.hasVersioning == (if h.unversioned then 0 else 1) && summary.identity == h.identity
  }

  lemma {:induction false} SummaryInFront(buffer: seq<byte>, v: Version, codecs: PartCodecs, h: ZenHeader,
                                          sections: seq<seq<byte>>)
    requires WrittenHeader(buffer, v, codecs, h) && sections == Sections(v, codecs, h)
    ensures HasBlob(buffer, 0, SummaryBytes(FinalSummary(v, codecs, h))) &&
            HasBlob(buffer, SummarySize(v), Flat(sections))
    ensures |buffer| == SummarySize(v) + |Flat(sections)|
  {
    SummaryLength(FinalSummary(v, codecs, h), v);
    assert buffer[0..|buffer|] == buffer;
    SplitBlob(buffer, 0, SummaryBytes(FinalSummary(v, codecs, h)), Flat(sections));
  }

  lemma {:induction false} OffsetsSmall(buffer: seq<byte>, base: nat, sections: seq<seq<byte>>, offsets: seq<nat>)
    requires Placed(buffer, base, sections, offsets)
    ensures forall k :: 0 <= k < |offsets| ==> offsets[k] < 0x8000_0000
  {
    forall k | 0 <= k < |offsets| ensures offsets[k] < 0x8000_0000 {
      OffsetSection(buffer, base, sections, offsets, k);
    }
  }

  lemma {:induction false} SectionsPlaced(buffer: seq<byte>, v: Version, codecs: PartCodecs, h: ZenHeader,
                                          sections: seq<seq<byte>>)
    requires WrittenHeader(buffer, v, codecs, h) && sections == Sections(v, codecs, h) &&
             |sections| == OffsetCount(v) + 2
    ensures Placed(buffer, SummarySize(v), sections, FinalSummary(v, codecs, h).offsets)
  {
    SummaryInFront(buffer, v, codecs, h, sections);
    var offsets := FinalSummary(v, codecs, h).offsets;
    forall k: nat | k < |offsets| ensures OffsetIs(SummarySize(v), sections, offsets, k) {
      assert offsets[k] == SectionStart(v, codecs, h, k + 2);
    }
  }

  /** The parts of a written header. */
  lemma {:induction false} WrittenParts(buffer: seq<byte>, v: Version, codecs: PartCodecs, h: ZenHeader)
    returns (summary: Summary, sections: seq<seq<byte>>)
    requires WrittenHeader(buffer, v, codecs, h)
    ensures SummaryHeld(buffer, v, h, summary) && SectionsHeld(buffer, v, codecs, h, sections, summary.offsets)
  {
    summary := FinalSummary(v, codecs, h);
    sections := SectionsOf(v, codecs, h);
    SummaryInFront(buffer, v, codecs, h, sections);
    SectionsPlaced(buffer, v, codecs, h, sections);
    OffsetsSmall(buffer, SummarySize(v), sections, summary.offsets);
  }

  // ---- Front ----

  /** The head as it is read: versioning info if there is any, names, and where the head ends. */
  datatype Head = Head(versioning: Option<Versioning>, names: nat, end: nat)

  method ReadHead(buffer: seq<byte>, codecs: PartCodecs, hasVersioning: bool, at: nat, ghost h: ZenHeader,
                  ghost held: bool) returns (r: Option<Head>)
    requires held ==> codecs.Lawful() && hasVersioning == !h.unversioned && HasBlob(buffer, at, HeadBytes(codecs, h))
    ensures held ==>
      r == Some(Head(if h.unversioned then None else Some(h.versioning), h.names, at + |HeadBytes(codecs, h)|))
  {
    if held {
      SplitBlob(buffer, at, if h.unversioned
          then [] else codecs.versioning.encode(h.versioning), codecs.names.encode(h.names));
    }
    var position, versioning := at, None;
    if hasVersioning {
      var read := codecs.versioning.decode(buffer, at);
      if read.None? {
        return None;
      }
      versioning, position := Some(read.value.0), read.value.1;
    }
    var names := codecs.names.decode(buffer, position);
    if names.None? {
      return None;
    }
    r := Some(Head(versioning, names.value.0, names.value.1));
  }

  lemma {:induction false} BulkSize(layout: BulkLayout, at: nat, bulkData: seq<seq<byte>>)
    ensures |BulkBytes(layout, at, bulkData)| == 0 <==> layout.NoBulkMap?
  {
  }

  /** The head is behind the summary, and behind it the bulk data map up to `end`. */
  ghost predicate FrontAt(buffer: seq<byte>, v: Version, codecs: PartCodecs, h: ZenHeader, end: int) {
    && h.Valid() && codecs.Lawful() && HasBlob(buffer, SummarySize(v), HeadBytes(codecs, h))
    && BulkAt(buffer, h, SummarySize(v) + |HeadBytes(codecs, h)|, end)
  }

  ghost predicate BulkAt(buffer: seq<byte>, h: ZenHeader, at: nat, end: int) {
    && Wide(h.bulkData, 32) && HasBlob(buffer, at, BulkBytes(LayoutFor(h.versioning.ue5), at, h.bulkData))
    && at + |BulkBytes(LayoutFor(h.versioning.ue5), at, h.bulkData)| == end < 0x8000_0000
  }

  lemma {:induction false} FrontPlaced(buffer: seq<byte>, v: Version, codecs: PartCodecs, h: ZenHeader,
                                       sections: seq<seq<byte>>, offsets: seq<int>)
    requires Placed(buffer, SummarySize(v), sections, offsets) && FrontIs(v, codecs, h, sections) && |offsets| > 0
    requires h.Valid() && codecs.Lawful()
    ensures FrontAt(buffer, v, codecs, h, offsets[0])
  {
    SectionPlaced(buffer, SummarySize(v), sections, offsets, 0);
    SectionPlaced(buffer, SummarySize(v), sections, offsets, 1);
    assert OffsetIs(SummarySize(v), sections, offsets, 0);
    assert sections[..0] == [];
  }

  /** On written headers the heuristic tells whether there is a bulk data map; for 5.1 and 5.2 whatever the version. */
  lemma {:induction false} HeuristicIsRight(buffer: seq<byte>, v: Version, h: ZenHeader, at: nat, end: int)
    requires BulkAt(buffer, h, at, end)
    ensures HeuristicHasBulkData(end, v, at) == HeuristicResult(v, h)
    ensures v.OptionalSegmentPackages? ==> (HeuristicHasBulkData(end, v, at) <==> h.versioning.ue5 >= DATA_RESOURCES)
  {
    BulkSize(LayoutFor(h.versioning.ue5), at, h.bulkData);
  }

  // ---- Maps ----

  datatype Maps = Maps(hashes: seq<seq<byte>>, imports: seq<seq<byte>>, exports_: seq<seq<byte>>,
                       entries: seq<seq<byte>>)

  ghost function MapsOf(h: ZenHeader): Maps {
    Maps(h.publicExportHashes, h.importMap, h.exportMap, h.bundleEntries)
  }

  ghost predicate MapsHeld(buffer: seq<byte>, v: Version, h: ZenHeader, sections: seq<seq<byte>>, offsets: seq<int>) {
    Placed(buffer, SummarySize(v), sections, offsets) && MapsAre(h, sections) && h.Valid()
  }

  /** Records that lie between two offsets. */
  ghost predicate Between(buffer: seq<byte>, from: int, to: int, records: seq<seq<byte>>, width: nat) {
    from >= 0 && to == from + |Flat(records)| && HasRecords(buffer, from, records, width)
  }

  ghost predicate MapsBetween(buffer: seq<byte>, offsets: seq<int>, h: ZenHeader)
    requires |offsets| >= 5
  {
    && Between(buffer, offsets[0], offsets[1], h.publicExportHashes, 8) &&
       Between(buffer, offsets[1], offsets[2], h.importMap, 8)
    && Between(buffer, offsets[2], offsets[3], h.exportMap, 72) &&
       Between(buffer, offsets[3], offsets[4], h.bundleEntries, 8)
  }

  lemma {:induction false} MapsPlaced(buffer: seq<byte>, v: Version, h: ZenHeader, sections: seq<seq<byte>>,
                                      offsets: seq<int>)
    requires MapsHeld(buffer, v, h, sections, offsets) && |offsets| >= 5
    ensures MapsBetween(buffer, offsets, h)
  {
    RecordSection(buffer, SummarySize(v), sections, offsets, 0, h.publicExportHashes, 8);
    RecordSection(buffer, SummarySize(v), sections, offsets, 1, h.importMap, 8);
    RecordSection(buffer, SummarySize(v), sections, offsets, 2, h.exportMap, 72);
    RecordSection(buffer, SummarySize(v), sections, offsets, 3, h.bundleEntries, 8);
  }

  /** Public export hashes, imports, exports and bundle entries; there have to be two entries for each export. */
  method ReadMaps(buffer: seq<byte>, offsets: seq<int>, ghost h: ZenHeader, ghost held: bool) returns (r: Option<Maps>)
    requires |offsets| >= 5 && (held ==> MapsBetween(buffer, offsets, h))
    ensures held ==> r == if |h.bundleEntries| == 2 * |h.exportMap| then Some(MapsOf(h)) else None
  {
    var hashes := ReadBetween(buffer, offsets[0], offsets[1], 8, h.publicExportHashes, held);
    var imports := ReadBetween(buffer, offsets[1], offsets[2], 8, h.importMap, held);
    var exports_ := ReadBetween(buffer, offsets[2], offsets[3], 72, h.exportMap, held);
    var entries := ReadBetween(buffer, offsets[3], offsets[4], 8, h.bundleEntries, held);
    if hashes.None? || imports.None? || exports_.None? || entries.None? || |entries.value| != 2 * |exports_.value| {
      return None;
    }
    r := Some(Maps(hashes.value, imports.value, exports_.value, entries.value));
  }

  // ---- Dependency bundles ----

  datatype Bundles = Bundles(headers: seq<seq<byte>>, entries: seq<seq<byte>>, importedNames: nat)

  /** Stands for an empty list of imported package names. */
  const NO_NAMES: nat := 0

  /** The sections behind the maps are as written. */
  ghost predicate BackHeld(buffer: seq<byte>, v: Version, codecs: PartCodecs, h: ZenHeader, sections: seq<seq<byte>>,
                           offsets: seq<int>)
  {
    Placed(buffer, SummarySize(v), sections, offsets) && BackIs(v, codecs, h, sections) && h.Valid() && codecs.Lawful()
  }

  lemma {:induction false} BundleSections(buffer: seq<byte>, v: Version, codecs: PartCodecs, h: ZenHeader,
                                          sections: seq<seq<byte>>, offsets: seq<int>)
    requires BackHeld(buffer, v, codecs, h, sections, offsets) && StoresBundles(v)
    ensures |offsets| == 7 && offsets[4] > 0 && offsets[5] == offsets[4] + |Flat(h.dependencyHeaders)| &&
            offsets[6] == offsets[5] + |Flat(h.dependencyEntries)|
    ensures HasRecords(buffer, offsets[4], h.dependencyHeaders, 20) &&
            HasRecords(buffer, offsets[5], h.dependencyEntries, 4)
    ensures HasBlob(buffer, offsets[6], codecs.names.encode(h.importedNames))
  {
    RecordSection(buffer, SummarySize(v), sections, offsets, 4, h.dependencyHeaders, 20);
    RecordSection(buffer, SummarySize(v), sections, offsets, 5, h.dependencyEntries, 4);
    OffsetSection(buffer, SummarySize(v), sections, offsets, 4);
    OffsetSection(buffer, SummarySize(v), sections, offsets, 6);
  }

  /** Dependency bundle headers, one per export, their entries, and the imported package names. */
  method ReadBundles(buffer: seq<byte>, codecs: PartCodecs, offsets: seq<int>, exportCount: nat, ghost v: Version,
                     ghost h: ZenHeader, ghost sections: seq<seq<byte>>, ghost held: bool)
    returns (r: Option<Bundles>)
    requires |offsets| == 7
    requires held ==>
      BackHeld(buffer, v, codecs, h, sections, offsets) && StoresBundles(v) && exportCount == |h.exportMap|
    ensures held ==>
      r ==
      if |h.dependencyHeaders| == |h.exportMap|
      then Some(Bundles(h.dependencyHeaders, h.dependencyEntries, h.importedNames)) else None
  {
    if held {
      BundleSections(buffer, v, codecs, h, sections, offsets);
    }
    var headers: seq<seq<byte>>, entries: seq<seq<byte>>, importedNames := [], [], NO_NAMES;
    if offsets[4] > 0 && offsets[5] > 0 {
      var readHeaders := ReadBetween(buffer, offsets[4], offsets[5], 20, h.dependencyHeaders, held);
      if readHeaders.None? || |readHeaders.value| != exportCount {
        return None;
      }
      var readEntries := ReadBetween(buffer, offsets[5], offsets[6], 4, h.dependencyEntries, held);
      if readEntries.None? {
        return None;
      }
      headers, entries := readHeaders.value, readEntries.value;
    }
    if offsets[6] > 0 {
      var names := codecs.names.decode(buffer, offsets[6]);
      if names.None? {
        return None;
      }
      importedNames := names.value.0;
    }
    r := Some(Bundles(headers, entries, importedNames));
  }

  // ---- Graph data ----

  datatype Graph = Graph(headers: seq<seq<byte>>, arcs: seq<seq<byte>>, external: seq<ExternalDependency>)

  /** One list of arcs per imported package. */
  ghost function ListedArcs(external: seq<ExternalDependency>, packages: seq<nat>): seq<ExternalDependency> {
    seq(|packages|, k requires 0 <= k < |packages| => ExternalDependency(packages[k], ArcsOn(external, packages[k])))
  }

  lemma {:induction false} ArcsWide(external: seq<ExternalDependency>, package: nat)
    requires forall d :: d in external ==> Wide(d.arcs, 9)
    ensures Wide(ArcsOn(external, package), 9)
  {
    if external != [] {
      var front := external[..|external| - 1];
      assert forall d :: d in front ==> d in external;
      ArcsWide(front, package);
      assert external[|external| - 1] in external;
    }
  }

  /** The `k`-th arc list is behind the ones before it. */
  lemma {:induction false} ArcListAt(buffer: seq<byte>, at: nat, external: seq<ExternalDependency>, packages: seq<nat>,
                                     k: nat, n: nat, start: nat)
    requires k < n <= |packages| && HasBlob(buffer, at, ArcLists(external, packages, n)) &&
             start == at + |ArcLists(external, packages, k)|
    ensures HasBlob(buffer, start, Counted(ArcsOn(external, packages[k])))
    decreases n
  {
    SplitBlob(buffer, at, ArcLists(external, packages, n - 1), Counted(ArcsOn(external, packages[n - 1])));
    if k < n - 1 {
      ArcListAt(buffer, at, external, packages, k, n - 1, start);
    }
  }

  /** The graph data's arc lists are in the buffer. */
  ghost predicate HasArcLists(buffer: seq<byte>, at: nat, packages: seq<nat>, external: seq<ExternalDependency>) {
    && (forall d :: d in external ==> Wide(d.arcs, 9))
    && HasBlob(buffer, at, ArcLists(external, packages, |packages|)) && |buffer| < 0x8000_0000
  }

  lemma {:induction false} ListFollows(at: nat, packages: seq<nat>, external: seq<ExternalDependency>, k: nat)
    requires k < |packages|
    ensures ListStart(at, packages, external, k + 1)
      == ListStart(at, packages, external, k) + |Counted(ArcsOn(external, packages[k]))|
  {
  }

  lemma {:induction false} ArcListFacts(buffer: seq<byte>, at: nat, packages: seq<nat>,
                                        external: seq<ExternalDependency>, k: nat, start: nat)
    requires HasArcLists(buffer, at, packages, external) && k < |packages| &&
             start == ListStart(at, packages, external, k)
    ensures HasCounted(buffer, start, ArcsOn(external, packages[k]), 9)
  {
    ArcListAt(buffer, at, external, packages, k, |packages|, start);
    ArcsWide(external, packages[k]);
    CountedFits(buffer, start, ArcsOn(external, packages[k]), 9);
  }

  ghost function ListStart(at: nat, packages: seq<nat>, external: seq<ExternalDependency>, k: nat): nat
    requires k <= |packages|
  {
    at + |ArcLists(external, packages, k)|
  }

  /** The `k`-th arc list is where the ones before it end. */
  ghost predicate ListHeld(buffer: seq<byte>, at: nat, packages: seq<nat>, external: seq<ExternalDependency>, k: nat)
    requires k < |packages|
  {
    var arcs := ArcsOn(external, packages[k]);
    && HasCounted(buffer, ListStart(at, packages, external, k), arcs, 9)
    && ListStart(at, packages, external, k + 1) == ListStart(at, packages, external, k) + |Counted(arcs)|
  }

  lemma {:induction false} AllListsHeld(buffer: seq<byte>, at: nat, packages: seq<nat>,
                                        external: seq<ExternalDependency>)
    requires HasArcLists(buffer, at, packages, external)
    ensures forall k :: 0 <= k < |packages| ==> ListHeld(buffer, at, packages, external, k)
    ensures ListStart(at, packages, external, 0) == at
  {
    forall k | 0 <= k < |packages| ensures ListHeld(buffer, at, packages, external, k) {
      ArcListFacts(buffer, at, packages, external, k, ListStart(at, packages, external, k));
      ListFollows(at, packages, external, k);
    }
  }

  method ReadArcLists(buffer: seq<byte>, at: nat, packages: seq<nat>, ghost external: seq<ExternalDependency>,
                      ghost held: bool)
    returns (r: Option<seq<ExternalDependency>>)
    requires held ==> ListStart(at, packages, external, 0) == at && forall k ::
      0 <= k < |packages| ==> ListHeld(buffer, at, packages, external, k)
    ensures held ==> r == Some(ListedArcs(external, packages))
  {
    var list: seq<ExternalDependency> := [];
    var position := at;
    for k := 0 to |packages|
      invariant |list| == k && (held ==> position == ListStart(at, packages, external, k))
      invariant held ==> forall j ::
        0 <= j < k ==> list[j] == ExternalDependency(packages[j], ArcsOn(external, packages[j]))
    {
      assert held ==> ListHeld(buffer, at, packages, external, k);
      var read := ReadCounted(buffer, position, 9, ArcsOn(external, packages[k]), held);
      if read.None? {
        return None;
      }
      list := list + [ExternalDependency(packages[k], read.value.0)];
      position := read.value.1;
    }
    assert held ==> list == ListedArcs(external, packages);
    r := Some(list);
  }

  ghost predicate HasGraph(buffer: seq<byte>, at: nat, h: ZenHeader) {
    h.Valid() && HasBlob(buffer, at, GraphBytes(h)) && |buffer| < 0x8000_0000
  }

  /** Graph data in its three parts. */
  lemma {:induction false} GraphSplits(buffer: seq<byte>, at: nat, headers: seq<byte>, arcs: seq<byte>,
                                       lists: seq<byte>)
    requires HasBlob(buffer, at, headers + (arcs + lists))
    ensures HasBlob(buffer, at, headers) && HasBlob(buffer, at + |headers|, arcs) &&
            HasBlob(buffer, at + |headers| + |arcs|, lists)
  {
    SplitBlob(buffer, at, headers, arcs + lists);
    SplitBlob(buffer, at + |headers|, arcs, lists);
  }

  lemma {:induction false} GraphBlobs(buffer: seq<byte>, at: nat, h: ZenHeader, arcsAt: nat, listsAt: nat)
    requires HasBlob(buffer, at, GraphBytes(h))
    requires arcsAt == at + |Flat(h.bundleHeaders)| && listsAt == arcsAt + |Counted(h.internalArcs)|
    ensures HasBlob(buffer, at, Flat(h.bundleHeaders)) && HasBlob(buffer, arcsAt, Counted(h.internalArcs))
    ensures HasBlob(buffer, listsAt, ArcLists(h.external, h.importedPackages, |h.importedPackages|))
  {
    GraphSplits(buffer, at, Flat(h.bundleHeaders), Counted(h.internalArcs),
                ArcLists(h.external, h.importedPackages, |h.importedPackages|));
  }

  lemma {:induction false} GraphParts(buffer: seq<byte>, at: nat, h: ZenHeader, arcsAt: nat, listsAt: nat)
    requires HasGraph(buffer, at, h) && arcsAt == at + |Flat(h.bundleHeaders)| &&
             listsAt == arcsAt + |Counted(h.internalArcs)|
    ensures HasRecords(buffer, at, h.bundleHeaders, 16) && HasCounted(buffer, arcsAt, h.internalArcs, 8)
    ensures HasArcLists(buffer, listsAt, h.importedPackages, h.external)
  {
    GraphBlobs(buffer, at, h, arcsAt, listsAt);
    CountedFits(buffer, arcsAt, h.internalArcs, 8);
  }

  /** The parts of graph data behind each other: bundle headers, internal arcs, and the arcs on each package. */
  ghost predicate GraphParted(buffer: seq<byte>, at: nat, h: ZenHeader) {
    && HasRecords(buffer, at, h.bundleHeaders, 16)
    && HasCounted(buffer, at + 16 * |h.bundleHeaders|, h.internalArcs, 8)
    && HasArcLists(buffer, at + 16 * |h.bundleHeaders| + |Counted(h.internalArcs)|, h.importedPackages, h.external)
  }

  lemma {:induction false} GraphHeld(buffer: seq<byte>, at: nat, h: ZenHeader)
    requires HasGraph(buffer, at, h)
    ensures GraphParted(buffer, at, h)
  {
    FlatLength(h.bundleHeaders, 16);
    var arcsAt := at + 16 * |h.bundleHeaders|;
    GraphParts(buffer, at, h, arcsAt, arcsAt + |Counted(h.internalArcs)|);
  }

  /** Internal arcs, and behind them the arcs on each package. */
  method ReadArcs(buffer: seq<byte>, at: nat, packages: seq<nat>, ghost internalArcs: seq<seq<byte>>,
                  ghost external: seq<ExternalDependency>, ghost held: bool)
    returns (r: Option<(seq<seq<byte>>, seq<ExternalDependency>)>)
    requires held ==>
      HasCounted(buffer, at, internalArcs, 8) && HasArcLists(buffer, at + |Counted(internalArcs)|, packages, external)
    ensures held ==> r == Some((internalArcs, ListedArcs(external, packages)))
  {
    var arcs := ReadCounted(buffer, at, 8, internalArcs, held);
    if arcs.None? {
      return None;
    }
    if held {
      AllListsHeld(buffer, arcs.value.1, packages, external);
    }
    var lists := ReadArcLists(buffer, arcs.value.1, packages, external, held);
    if lists.None? {
      return None;
    }
    r := Some((arcs.value.0, lists.value));
  }

  /** Bundle headers as many as the store entry says, internal arcs, and the arcs on each package of the store entry. */
  method ReadGraph(buffer: seq<byte>, at: nat, bundleCount: int, packages: seq<nat>, ghost h: ZenHeader,
                   ghost held: bool) returns (r: Option<Graph>)
    requires held ==> GraphParted(buffer, at, h) && bundleCount == |h.bundleHeaders| && packages == h.importedPackages
    ensures held ==> r == Some(Graph(h.bundleHeaders, h.internalArcs, ListedArcs(h.external, h.importedPackages)))
  {
    if bundleCount < 0 {
      return None;
    }
    var headers := ReadRecords(buffer, at, bundleCount, 16, h.bundleHeaders, held);
    if headers.None? {
      return None;
    }
    var arcs := ReadArcs(buffer, at + 16 * bundleCount, packages, h.internalArcs, h.external, held);
    if arcs.None? {
      return None;
    }
    r := Some(Graph(headers.value, arcs.value.0, arcs.value.1));
  }

  // ---- The whole header ----

  /** What follows the maps: dependency bundles or graph data, as the version has it. */
  datatype Back = Back(bundles: Bundles, graph: Graph)

  ghost function BackOf(v: Version, h: ZenHeader): Back {
    if StoresBundles(v) then Back(Bundles(h.dependencyHeaders, h.dependencyEntries, h.importedNames), Graph([], [], []))
    else Back(Bundles([], [], NO_NAMES),
              Graph(h.bundleHeaders, h.internalArcs, ListedArcs(h.external, h.importedPackages)))
  }

  method ReadBack(buffer: seq<byte>, v: Version, codecs: PartCodecs, offsets: seq<int>, exportCount: nat,
                  bundleCount: int, packages: seq<nat>, ghost h: ZenHeader, ghost sections: seq<seq<byte>>,
                  ghost held: bool)
    returns (r: Option<Back>)
    requires |offsets| == OffsetCount(v)
    requires held ==>
      BackHeld(buffer, v, codecs, h, sections, offsets) && exportCount == |h.exportMap| &&
      packages == h.importedPackages
    requires held && !StoresBundles(v) ==> bundleCount == |h.bundleHeaders|
    ensures held ==>
      r == if StoresBundles(v) && |h.dependencyHeaders| != |h.exportMap| then None else Some(BackOf(v, h))
  {
    var bundles, graph := Bundles([], [], NO_NAMES), Graph([], [], []);
    if StoresBundles(v) {
      var read := ReadBundles(buffer, codecs, offsets, exportCount, v, h, sections, held);
      if read.None? {
        return None;
      }
      bundles := read.value;
    } else {
      if held {
        GraphSection(buffer, v, codecs, h, sections, offsets);
        GraphHeld(buffer, offsets[4], h);
      }
      if offsets[4] > 0 {
        var read := ReadGraph(buffer, offsets[4], bundleCount, packages, h, held);
        if read.None? {
          return None;
        }
        graph := read.value;
      }
    }
    r := Some(Back(bundles, graph));
  }

  lemma {:induction false} GraphSection(buffer: seq<byte>, v: Version, codecs: PartCodecs, h: ZenHeader,
                                        sections: seq<seq<byte>>, offsets: seq<int>)
    requires BackHeld(buffer, v, codecs, h, sections, offsets) && !StoresBundles(v)
    ensures |offsets| == 5 && offsets[4] > 0 && HasGraph(buffer, offsets[4], h)
  {
    OffsetSection(buffer, SummarySize(v), sections, offsets, 4);
  }

  /** The front of a header as it is read. */
  datatype FrontParts = FrontParts(versioning: Versioning, names: nat, bulkData: seq<seq<byte>>)

  /** The versioning info a reader ends up with: what is stored, or the file version it was told or derived. */
  ghost function VersioningRead(h: ZenHeader, ue5: int): Versioning {
    if h.unversioned then Versioning(ue5, 0) else h.versioning
  }

  ghost function BulkRead(h: ZenHeader): seq<seq<byte>> {
    if h.versioning.ue5 >= DATA_RESOURCES then h.bulkData else []
  }

  /** The reader goes by a version that lays out the bulk data map like the package's own. */
  ghost predicate SameLayout(v: Version, h: ZenHeader, hint: Option<int>, container: ContainerVersion) {
    var ue5 := ReadVersion(v, h, hint, container);
    ue5.Some? && LayoutFor(ue5.value) == LayoutFor(h.versioning.ue5)
  }

  /** What the version decision comes to on a written header. */
  lemma {:induction false} DecisionIsRight(buffer: seq<byte>, v: Version, h: ZenHeader, at: nat, end: int,
                                           hint: Option<int>, container: ContainerVersion, hasBulkData: bool,
                                           versioning: Option<Versioning>)
    requires BulkAt(buffer, h, at, end) && SameLayout(v, h, hint, container)
    requires !h.unversioned ==> versioning == Some(h.versioning) && hasBulkData == (h.versioning.ue5 >= DATA_RESOURCES)
    requires h.unversioned && hint.Some? ==>
      versioning == Some(Versioning(hint.value, 0)) && hasBulkData == (hint.value >= DATA_RESOURCES)
    requires h.unversioned && hint.None? ==>
      && hasBulkData == HeuristicHasBulkData(end, v, at)
      && versioning
        == (match DerivedVersion(v, container, hasBulkData) case None => None case Some(d) => Some(Versioning(d, 0)))
    ensures versioning == Some(VersioningRead(h, ReadVersion(v, h, hint, container).value))
    ensures LayoutFor(versioning.value.ue5) == LayoutFor(h.versioning.ue5)
    ensures hasBulkData == (h.versioning.ue5 >= DATA_RESOURCES)
  {
    HeuristicIsRight(buffer, v, h, at, end);
  }

  /** Head and bulk data map, read by the version that is stored, told or derived. */
  method ReadFront(buffer: seq<byte>, v: Version, codecs: PartCodecs, hasVersioning: bool, end: int, hint: Option<int>,
                   container: ContainerVersion, ghost h: ZenHeader, ghost held: bool)
    returns (r: Option<FrontParts>)
    requires held ==>
      FrontAt(buffer, v, codecs, h, end) && SameLayout(v, h, hint, container) && hasVersioning == !h.unversioned
    ensures held ==>
      r == Some(FrontParts(VersioningRead(h, ReadVersion(v, h, hint, container).value), h.names, BulkRead(h)))
  {
    var head := ReadHead(buffer, codecs, hasVersioning, SummarySize(v), h, held);
    if head.None? {
      return None;
    }
    var hasBulkData, versioning := DecideVersion(head.value.versioning, hint, container, v, end, head.value.end);
    if held {
      DecisionIsRight(buffer, v, h, head.value.end, end, hint, container, hasBulkData, versioning);
    }
    if versioning.None? {
      return None;
    }
    var bulkData := ReadBulk(buffer, hasBulkData, versioning.value.ue5, head.value.end, end, h.bulkData, held);
    if bulkData.None? {
      return None;
    }
    r := Some(FrontParts(versioning.value, head.value.names, bulkData.value));
  }

  /** A header as it comes back: the parts its version stores, and the arcs listed by imported package. */
  ghost function HeaderRead(v: Version, h: ZenHeader, ue5: int): ZenHeader {
    var back := BackOf(v, h);
    h.(versioning := VersioningRead(h, ue5), bulkData := BulkRead(h),
       bundleHeaders := back.graph.headers, internalArcs := back.graph.arcs, external := back.graph.external,
       dependencyHeaders := back.bundles.headers, dependencyEntries := back.bundles.entries,
         importedNames := back.bundles.importedNames)
  }

  /** The counts that the reader insists on. */
  ghost predicate CountsAgree(v: Version, h: ZenHeader) {
    |h.bundleEntries| == 2 * |h.exportMap| && (StoresBundles(v) ==> |h.dependencyHeaders| == |h.exportMap|)
  }

  /** The summary of a written header, and the sections behind it. */
  method ReadSummaryOf(buffer: seq<byte>, v: Version, ghost codecs: PartCodecs, ghost h: ZenHeader, ghost held: bool)
    returns (r: Option<ReadSummary>, ghost sections: seq<seq<byte>>)
    requires held ==> WrittenHeader(buffer, v, codecs, h)
    ensures r.Some? ==> |r.value.offsets| == OffsetCount(v)
    ensures held ==> r.Some? && r.value.identity == h.identity && (r.value.hasVersioning != 0) == !h.unversioned
    ensures held ==> SectionsHeld(buffer, v, codecs, h, sections, r.value.offsets)
  {
    ghost var written := Summary(0, 0, [], []);
    sections := [];
    if held {
      var parts, list := WrittenParts(buffer, v, codecs, h);
      written, sections := parts, list;
    }
    r := ReadFrontSummary(buffer, v, written, held);
  }

  lemma {:induction false} HeldParts(buffer: seq<byte>, v: Version, codecs: PartCodecs, h: ZenHeader,
                                     sections: seq<seq<byte>>, offsets: seq<int>)
    requires SectionsHeld(buffer, v, codecs, h, sections, offsets)
    ensures |offsets| == OffsetCount(v) && FrontAt(buffer, v, codecs, h, offsets[0])
    ensures MapsHeld(buffer, v, h, sections, offsets) && BackHeld(buffer, v, codecs, h, sections, offsets)
  {
    FrontPlaced(buffer, v, codecs, h, sections, offsets);
  }

  /** Everything behind the summary, read by its offsets. */
  method ReadSections(buffer: seq<byte>, v: Version, codecs: PartCodecs, summary: ReadSummary, entry: StoreEntry,
                      hint: Option<int>, container: ContainerVersion, ghost h: ZenHeader,
                      ghost sections: seq<seq<byte>>, ghost held: bool)
    returns (r: Option<(FrontParts, Maps, Back)>)
    requires |summary.offsets| == OffsetCount(v)
    requires held ==> SectionsHeld(buffer, v, codecs, h, sections, summary.offsets) && SameLayout(v, h, hint, container)
    requires held ==> (summary.hasVersioning != 0) == !h.unversioned && EntryAgrees(v, h, entry)
    ensures held ==> r == if !CountsAgree(v, h) then None
      else Some((FrontParts(VersioningRead(h, ReadVersion(v, h, hint, container).value), h.names, BulkRead(h)),
                 MapsOf(h), BackOf(v, h)))
  {
    var offsets := summary.offsets;
    if held {
      HeldParts(buffer, v, codecs, h, sections, offsets);
      MapsPlaced(buffer, v, h, sections, offsets);
    }
    var front := ReadFront(buffer, v, codecs, summary.hasVersioning != 0, offsets[0], hint, container, h, held);
    if front.None? {
      return None;
    }
    var maps := ReadMaps(buffer, offsets, h, held);
    if maps.None? {
      return None;
    }
    var back := ReadBack(buffer, v, codecs, offsets, |maps.value.exports_|, entry.exportBundleCount,
                         entry.importedPackages, h, sections, held);
    if back.None? {
      return None;
    }
    r := Some((front.value, maps.value, back.value));
  }

  /** The store entry says what the header does not store. */
  ghost predicate EntryAgrees(v: Version, h: ZenHeader, entry: StoreEntry) {
    && entry.importedPackages == h.importedPackages && entry.shaderMapHashes == h.shaderMapHashes
    && (!StoresBundles(v) ==> entry.exportBundleCount == |h.bundleHeaders|)
  }

  /**
   * `FZenPackageHeader::deserialize` for header versions after Initial, given the store entry of the package. A written
   * header comes back exactly when its counts agree, provided the reader's version has the layout of the package's own.
   */
  method DeserializeHeader(v: Version, codecs: PartCodecs, buffer: seq<byte>, entry: StoreEntry, hint: Option<int>,
                           container: ContainerVersion, ghost h: ZenHeader, ghost held: bool)
    returns (r: Result<ZenHeader>)
    requires held ==>
      WrittenHeader(buffer, v, codecs, h) && SameLayout(v, h, hint, container) && EntryAgrees(v, h, entry)
    ensures held ==> (r.Success? <==> CountsAgree(v, h))
    ensures held && r.Success? ==> r.value == HeaderRead(v, h, ReadVersion(v, h, hint, container).value)
  {
    ghost var sections;
    var summary;
    summary, sections := ReadSummaryOf(buffer, v, codecs, h, held);
    if summary.None? {
      return Failure("summary cannot be read");
    }
    var parts := ReadSections(buffer, v, codecs, summary.value, entry, hint, container, h, sections, held);
    if parts.None? {
      return Failure("header sections cannot be read");
    }
    r := Success(Assemble(summary.value, parts.value.0, parts.value.1, parts.value.2, entry));
  }

  function Assemble(summary: ReadSummary, front: FrontParts, maps: Maps, back: Back, entry: StoreEntry): ZenHeader {
    ZenHeader(summary.identity, summary.hasVersioning == 0, front.versioning, front.names, front.bulkData,
              maps.hashes, maps.imports, maps.exports_, maps.entries,
              back.graph.headers, back.bundles.headers, back.bundles.entries, back.bundles.importedNames,
              entry.importedPackages, entry.shaderMapHashes, back.graph.arcs, back.graph.external)
  }

  /** Written and read again with the store entry that writing filled in. */
  method WriteThenRead(v: Version, codecs: PartCodecs, h: ZenHeader, entry: StoreEntry, hint: Option<int>,
                       container: ContainerVersion)
    returns (r: Result<ZenHeader>)
    requires Modern(v) && codecs.Lawful() && h.Valid() && |HeaderBytes(v, codecs, h)| < 0x8000_0000 &&
             SameLayout(v, h, hint, container)
    ensures r.Success? <==> CountsAgree(v, h)
    ensures r.Success? ==> r.value == HeaderRead(v, h, ReadVersion(v, h, hint, container).value)
  {
    var buffer, filled := SerializeHeader(v, codecs, h, entry);
    r := DeserializeHeader(v, codecs, buffer, filled, hint, container, h, true);
  }

  /** The export section of a written header is as long as the export count that its store entry was given says. */
  lemma {:induction false} FilledCountIsWritten(v: Version, codecs: PartCodecs, h: ZenHeader, entry: StoreEntry,
                                                buffer: seq<byte>)
    requires Modern(v) && codecs.Lawful() && WrittenHeader(buffer, v, codecs, h)
    ensures var from, to := ReadI32(buffer, 32), ReadI32(buffer, 36);
      && from.Some? && to.Some? && to.value - from.value == 72 * |h.exportMap|
      && (v.LocalizedPackages? || v.OptionalSegmentPackages? ==>
          to.value - from.value == 72 * FilledEntry(v, h, entry).exportCount)
  {
    var summary, sections := WrittenParts(buffer, v, codecs, h);
    ExportSection(buffer, v, codecs, h, summary, sections);
  }

  lemma {:induction false} ExportSection(buffer: seq<byte>, v: Version, codecs: PartCodecs, h: ZenHeader,
                                         summary: Summary, sections: seq<seq<byte>>)
    requires SummaryHeld(buffer, v, h, summary) && SectionsHeld(buffer, v, codecs, h, sections, summary.offsets)
    ensures var from, to := ReadI32(buffer, 32), ReadI32(buffer, 36);
      from.Some? && to.Some? && to.value - from.value == 72 * |h.exportMap|
  {
    SectionLength(buffer, SummarySize(v), sections, summary, 2, h.exportMap, 72);
  }

  /** The offsets of two sections of records, as they are read, are as far apart as the records are long. */
  lemma {:induction false} SectionLength(buffer: seq<byte>, base: nat, sections: seq<seq<byte>>, summary: Summary,
                                         k: nat, records: seq<seq<byte>>, width: nat)
    requires HasBlob(buffer, 0, SummaryBytes(summary)) && SmallOffsets(summary)
    requires Placed(buffer, base, sections, summary.offsets) && k + 1 < |summary.offsets|
    requires sections[k + 2] == Flat(records) && Wide(records, width)
    ensures var from, to := ReadI32(buffer, 24 + 4 * k), ReadI32(buffer, 24 + 4 * (k + 1));
      from.Some? && to.Some? && to.value - from.value == width * |records|
  {
    SummaryParts(buffer, summary);
    OffsetAt(buffer, summary, k);
    OffsetAt(buffer, summary, k + 1);
    RecordSection(buffer, base, sections, summary.offsets, k, records, width);
    FlatLength(records, width);
  }

  /** The file versions of unversioned packages whose layout a reader without any hint gets right. */
  predicate GuessedRight(v: Version, container: ContainerVersion, ue5: int) {
    match v
    case PreInitial => false
    case Initial => false
    case LocalizedPackages => ue5 < DATA_RESOURCES
    case OptionalSegmentPackages => ue5 < PROPERTY_TAG_COMPLETE_TYPE_NAME
    case NoExportInfo =>
      if container.atLeastOnDemandMetaData then ue5 >= PROPERTY_TAG_COMPLETE_TYPE_NAME
      else DATA_RESOURCES <= ue5 < PROPERTY_TAG_COMPLETE_TYPE_NAME
    case SoftPackageReferences => container.isReplaceIoChunkHash && ue5 >= PROPERTY_TAG_COMPLETE_TYPE_NAME
  }

  /**
   * An unversioned package is read under its own layout exactly when its hint, or without a hint the guess from the
   * container, is on the same side of the two versions at which the layout changed.
   */
  lemma {:induction false} UnversionedLayout(v: Version, h: ZenHeader, hint: Option<int>, container: ContainerVersion)
    requires Modern(v) && h.unversioned
    ensures hint.None? ==> (SameLayout(v, h, hint, container) <==> GuessedRight(v, container, h.versioning.ue5))
    ensures hint.Some? ==> (SameLayout(v, h, hint, container) <==>
      && (hint.value >= DATA_RESOURCES <==> h.versioning.ue5 >= DATA_RESOURCES)
      && (hint.value >= PROPERTY_TAG_COMPLETE_TYPE_NAME <==> h.versioning.ue5 >= PROPERTY_TAG_COMPLETE_TYPE_NAME))
  {
  }

  /** When arcs are already listed by imported package, each package once, listing them changes nothing. */
  lemma {:induction false} ListedAlready(external: seq<ExternalDependency>, packages: seq<nat>)
    requires |external| == |packages| && Distinct(packages) && forall k ::
      0 <= k < |packages| ==> external[k].fromPackage == packages[k]
    ensures ListedArcs(external, packages) == external
  {
    forall k | 0 <= k < |packages| ensures ArcsOn(external, packages[k]) == external[k].arcs {
      OneArcList(external, packages, k, |packages|);
      assert external[..|packages|] == external;
    }
  }

  lemma {:induction false} OneArcList(external: seq<ExternalDependency>, packages: seq<nat>, k: nat, n: nat)
    requires |external| == |packages| && Distinct(packages) && forall j ::
      0 <= j < |packages| ==> external[j].fromPackage == packages[j]
    requires k < |packages| && n <= |packages|
    ensures ArcsOn(external[..n], packages[k]) == if k < n then external[k].arcs else []
  {
    if n > 0 {
      assert external[..n][..n - 1] == external[..n - 1];
      OneArcList(external, packages, k, n - 1);
    }
  }
}
