/** The zen package header as it is written: sections in a row, and a summary of their offsets patched in at the end. */
module ZenLayout {
  import opened Package
  import opened Bytes
  import opened Cursors
  import opened Codecs
  import opened Records
  import opened StoreEntries

  /** A part whose decoder finds its own end. */
  datatype SelfDelimiting<!T(!new)> = SelfDelimiting(encode: T -> seq<byte>,
                                                     decode: (seq<byte>, nat) -> Option<(T, nat)>) {
    ghost predicate Lawful() {
      && (forall t: T :: encode(t) != [])
      && (forall t: T, buffer: seq<byte>, at: nat ::
          HasBlob(buffer, at, encode(t)) ==> decode(buffer, at) == Some((t, at + |encode(t)|)))
    }
  }

  /** `FZenPackageVersioningInfo`: the UE5 file version, and the rest of it. */
  datatype Versioning = Versioning(ue5: int, rest: nat)

  /** Codecs of names and versioning info, about which only the law is known. */
  datatype PartCodecs = PartCodecs(versioning: SelfDelimiting<Versioning>, names: SelfDelimiting<nat>) {
    ghost predicate Lawful() { versioning.Lawful() && names.Lawful() }
  }

  const DATA_RESOURCES: int := 1009
  const PROPERTY_TAG_COMPLETE_TYPE_NAME: int := 1012

  /** How a file version lays out the bulk data map. */
  datatype BulkLayout = NoBulkMap | PlainBulkMap | PaddedBulkMap

  function LayoutFor(ue5: int): BulkLayout {
    if ue5 < DATA_RESOURCES then NoBulkMap
    else if ue5 < PROPERTY_TAG_COMPLETE_TYPE_NAME then PlainBulkMap
    else PaddedBulkMap
  }

  /** Container header versions after Initial, and those of them that store dependency bundles. */
  predicate Modern(v: Version) { !v.PreInitial? && !v.Initial? }

  predicate StoresBundles(v: Version) { v.NoExportInfo? || v.SoftPackageReferences? }

  /** `ExternalPackageDependency`. */
  datatype ExternalDependency = ExternalDependency(fromPackage: nat, arcs: seq<seq<byte>>)

  /** `FZenPackageHeader`; records of fixed-size fields are byte sequences of their width. */
  datatype ZenHeader = ZenHeader(
    identity: seq<byte>,
    unversioned: bool,
    versioning: Versioning,
    names: nat,
    bulkData: seq<seq<byte>>,
    publicExportHashes: seq<seq<byte>>,
    importMap: seq<seq<byte>>,
    exportMap: seq<seq<byte>>,
    bundleEntries: seq<seq<byte>>,
    bundleHeaders: seq<seq<byte>>,
    dependencyHeaders: seq<seq<byte>>,
    dependencyEntries: seq<seq<byte>>,
    importedNames: nat,
    importedPackages: seq<nat>,
    shaderMapHashes: seq<seq<byte>>,
    internalArcs: seq<seq<byte>>,
    external: seq<ExternalDependency>)
  {
    /** Records have the widths of their types. */
    ghost predicate Valid() {
      && |identity| == 16
      && Wide(bulkData, 32) && Wide(publicExportHashes, 8) && Wide(importMap, 8) && Wide(exportMap, 72) &&
         Wide(bundleEntries, 8)
      && Wide(bundleHeaders, 16) && Wide(dependencyHeaders, 20) && Wide(dependencyEntries, 4) && Wide(internalArcs, 8)
      && (forall d :: d in external ==> Wide(d.arcs, 9))
    }
  }

  // ---- The summary ----

  /** The summary of a package: its flags and sizes, and the offsets that its version stores. */
  datatype Summary = Summary(hasVersioning: nat, headerSize: nat, identity: seq<byte>, offsets: seq<nat>)

  function OffsetCount(v: Version): nat { if StoresBundles(v) then 7 else 5 }

  function SummarySize(v: Version): nat { 24 + 4 * OffsetCount(v) }

  function OffsetRecords(offsets: seq<nat>): (records: seq<seq<byte>>)
    ensures |records| == |offsets|
  {
    seq(|offsets|, i requires 0 <= i < |offsets| => Le(offsets[i], 4))
  }

  function SummaryBytes(s: Summary): seq<byte> {
    Le(s.hasVersioning, 4) + (Le(s.headerSize, 4) + (s.identity + Flat(OffsetRecords(s.offsets))))
  }

  lemma {:induction false} SummaryLength(s: Summary, v: Version)
    requires |s.identity| == 16 && |s.offsets| == OffsetCount(v)
    ensures |SummaryBytes(s)| == SummarySize(v)
  {
    var records := OffsetRecords(s.offsets);
    assert Wide(records, 4);
    FlatLength(records, 4);
  }

  // ---- Sections ----

  /** Versioning info if there is any, and the name map. */
  function HeadBytes(codecs: PartCodecs, h: ZenHeader): seq<byte> {
    (if h.unversioned then [] else codecs.versioning.encode(h.versioning)) + codecs.names.encode(h.names)
  }

  /** The padding before the bulk data map at a position. */
  function PaddingAt(at: nat): (n: nat)
    ensures (at + n) % 8 == 0 && n < 8
  {
    AlignIsLeast(at, 8, 0);
    Align(at, 8) - at
  }

  function BulkBytes(layout: BulkLayout, at: nat, bulkData: seq<seq<byte>>): seq<byte> {
    match layout
    case NoBulkMap => []
    case PlainBulkMap => Le(|Flat(bulkData)|, 8) + Flat(bulkData)
    case PaddedBulkMap => Le(PaddingAt(at), 8) + Zeros(PaddingAt(at)) + (Le(|Flat(bulkData)|, 8) + Flat(bulkData))
  }

  /** All arcs on one imported package. */
  function ArcsOn(external: seq<ExternalDependency>, package: nat): seq<seq<byte>> {
    if external == [] then []
    else
      var last := external[|external| - 1];
      ArcsOn(external[..|external| - 1], package) + if last.fromPackage == package then last.arcs else []
  }

  /** The arc lists of the first `n` imported packages. */
  function ArcLists(external: seq<ExternalDependency>, packages: seq<nat>, n: nat): seq<byte>
    requires n <= |packages|
  {
    if n == 0 then [] else ArcLists(external, packages, n - 1) + Counted(ArcsOn(external, packages[n - 1]))
  }

  function GraphBytes(h: ZenHeader): seq<byte> {
    Flat(h.bundleHeaders) + (Counted(h.internalArcs) + ArcLists(h.external, h.importedPackages, |h.importedPackages|))
  }

  /** The sections behind the summary, in order. */
  ghost function Sections(v: Version, codecs: PartCodecs, h: ZenHeader): seq<seq<byte>> {
    var head := HeadBytes(codecs, h);
    [head, BulkBytes(LayoutFor(h.versioning.ue5), SummarySize(v) + |head|, h.bulkData),
     Flat(h.publicExportHashes), Flat(h.importMap), Flat(h.exportMap), Flat(h.bundleEntries)]
    + if StoresBundles(v)
      then [Flat(h.dependencyHeaders), Flat(h.dependencyEntries), codecs.names.encode(h.importedNames)]
      else [GraphBytes(h)]
  }

  /** Where section `k` starts. */
  ghost function SectionStart(v: Version, codecs: PartCodecs, h: ZenHeader, k: nat): nat
    requires k <= |Sections(v, codecs, h)|
  {
    SummarySize(v) + StartOf(Sections(v, codecs, h), k)
  }

  /** The summary that ends up in front: the offsets of the sections from the public export hashes on. */
  ghost function FinalSummary(v: Version, codecs: PartCodecs, h: ZenHeader): Summary {
    Summary(if h.unversioned then 0 else 1, SummarySize(v) + |Flat(Sections(v, codecs, h))|, h.identity,
            seq(OffsetCount(v), k requires 0 <= k < OffsetCount(v) => SectionStart(v, codecs, h, k + 2)))
  }

  ghost function HeaderBytes(v: Version, codecs: PartCodecs, h: ZenHeader): seq<byte> {
    SummaryBytes(FinalSummary(v, codecs, h)) + Flat(Sections(v, codecs, h))
  }

  // ---- Writing ----

  /** Overwriting the beginning with as many bytes. */
  lemma {:induction false} PatchFront(front: seq<byte>, rest: seq<byte>, patch: seq<byte>)
    requires |patch| == |front|
    ensures WriteAt(front + rest, 0, patch) == patch + rest
  {
  }

  lemma {:induction false} PatchMiddle(before: seq<byte>, old_: seq<byte>, rest: seq<byte>, patch: seq<byte>)
    requires |patch| == |old_| > 0
    ensures WriteAt(before + old_ + rest, |before|, patch) == before + patch + rest
  {
  }

  /** Records, one after the other. */
  method WriteRecords(buffer: seq<byte>, records: seq<seq<byte>>) returns (buffer': seq<byte>)
    ensures buffer' == buffer + Flat(records)
  {
    buffer' := buffer;
    for k := 0 to |records|
      invariant buffer' == buffer + Flat(records[..k])
    {
      assert records[..k + 1] == records[..k] + [records[k]];
      FlatAppend(records[..k], records[k]);
      buffer' := buffer' + records[k];
    }
    assert records[..|records|] == records;
  }

  /** The size of the map is known only when the map has been written, and is patched in then. */
  method WriteBulkMap(buffer: seq<byte>, bulkData: seq<seq<byte>>) returns (buffer': seq<byte>)
    ensures buffer' == buffer + (Le(|Flat(bulkData)|, 8) + Flat(bulkData))
  {
    var unknown := Le(0xFFFF_FFFF_FFFF_FFFF, 8);
    var sizeOffset := |buffer|;
    buffer' := buffer + unknown;
    var start := |buffer'|;
    buffer' := WriteRecords(buffer', bulkData);
    var size := |buffer'| - start;
    SizePatched(buffer, unknown, Flat(bulkData), Le(size, 8));
    buffer' := WriteAt(buffer', sizeOffset, Le(size, 8));
  }

  lemma {:induction false} SizePatched(before: seq<byte>, unknown: seq<byte>, rest: seq<byte>, patch: seq<byte>)
    requires |patch| == |unknown| > 0
    ensures WriteAt(before + unknown + rest, |before|, patch) == before + (patch + rest)
  {
    PatchMiddle(before, unknown, rest, patch);
    assert before + patch + rest == before + (patch + rest);
  }

  method WriteBulk(buffer: seq<byte>, ue5: int, bulkData: seq<seq<byte>>) returns (buffer': seq<byte>)
    ensures buffer' == buffer + BulkBytes(LayoutFor(ue5), |buffer|, bulkData)
  {
    buffer' := buffer;
    if ue5 >= DATA_RESOURCES {
      if ue5 >= PROPERTY_TAG_COMPLETE_TYPE_NAME {
        var padding := Align(|buffer|, 8) - |buffer|;
        assert padding == PaddingAt(|buffer|);
        buffer' := buffer' + Le(padding, 8) + Zeros(padding);
      }
      buffer' := WriteBulkMap(buffer', bulkData);
      ghost var map_ := Le(|Flat(bulkData)|, 8) + Flat(bulkData);
      if ue5 >= PROPERTY_TAG_COMPLETE_TYPE_NAME {
        AppendThree(buffer, Le(PaddingAt(|buffer|), 8), Zeros(PaddingAt(|buffer|)), map_);
      }
    }
  }

  lemma {:induction false} AppendThree(a: seq<byte>, b: seq<byte>, c: seq<byte>, d: seq<byte>)
    ensures a + b + c + d == a + (b + c + d)
  {
  }

  /** The arcs of all dependencies on one package, in order. */
  method CollectArcs(external: seq<ExternalDependency>, package: nat) returns (arcs: seq<seq<byte>>)
    ensures arcs == ArcsOn(external, package)
  {
    arcs := [];
    for k := 0 to |external|
      invariant arcs == ArcsOn(external[..k], package)
    {
      assert external[..k + 1][..k] == external[..k];
      if external[k].fromPackage == package {
        arcs := arcs + external[k].arcs;
      }
    }
    assert external[..|external|] == external;
  }

  method WriteCounted(buffer: seq<byte>, records: seq<seq<byte>>) returns (buffer': seq<byte>)
    ensures buffer' == buffer + Counted(records)
  {
    buffer' := WriteRecords(buffer + Le(|records|, 4), records);
  }

  /** One list of arcs per imported package. */
  method WriteArcLists(buffer: seq<byte>, h: ZenHeader) returns (buffer': seq<byte>)
    ensures buffer' == buffer + ArcLists(h.external, h.importedPackages, |h.importedPackages|)
  {
    buffer' := buffer;
    for n := 0 to |h.importedPackages|
      invariant buffer' == buffer + ArcLists(h.external, h.importedPackages, n)
    {
      var arcs := CollectArcs(h.external, h.importedPackages[n]);
      buffer' := WriteCounted(buffer', arcs);
      AppendTwo(buffer, ArcLists(h.external, h.importedPackages, n), Counted(arcs));
    }
  }

  lemma {:induction false} AppendTwo(a: seq<byte>, b: seq<byte>, c: seq<byte>)
    ensures a + b + c == a + (b + c)
  {
  }

  /** Bundle headers, internal arcs, and the arcs on each imported package. */
  method WriteGraph(buffer: seq<byte>, h: ZenHeader) returns (buffer': seq<byte>)
    ensures buffer' == buffer + GraphBytes(h)
  {
    buffer' := WriteRecords(buffer, h.bundleHeaders);
    buffer' := WriteCounted(buffer', h.internalArcs);
    buffer' := WriteArcLists(buffer', h);
    ghost var lists := ArcLists(h.external, h.importedPackages, |h.importedPackages|);
    AppendThree(buffer, Flat(h.bundleHeaders), Counted(h.internalArcs), lists);
    AppendTwo(Flat(h.bundleHeaders), Counted(h.internalArcs), lists);
  }

  /** The sections of a header, one by one. */
  ghost predicate FrontIs(v: Version, codecs: PartCodecs, h: ZenHeader, sections: seq<seq<byte>>) {
    && |sections| >= 2 && sections[0] == HeadBytes(codecs, h)
    && sections[1] == BulkBytes(LayoutFor(h.versioning.ue5), SummarySize(v) + |HeadBytes(codecs, h)|, h.bulkData)
  }

  ghost predicate MapsAre(h: ZenHeader, sections: seq<seq<byte>>) {
    && |sections| >= 7 && sections[2] == Flat(h.publicExportHashes) && sections[3] == Flat(h.importMap)
    && sections[4] == Flat(h.exportMap) && sections[5] == Flat(h.bundleEntries)
  }

  ghost predicate BackIs(v: Version, codecs: PartCodecs, h: ZenHeader, sections: seq<seq<byte>>) {
    && |sections| == OffsetCount(v) + 2
    && (if StoresBundles(v) then
          sections[6] == Flat(h.dependencyHeaders) && sections[7] == Flat(h.dependencyEntries) &&
            sections[8] == codecs.names.encode(h.importedNames)
        else sections[6] == GraphBytes(h))
  }

  /** The list of sections, known only by what is in it. */
  lemma {:induction false} SectionsOf(v: Version, codecs: PartCodecs, h: ZenHeader) returns (sections: seq<seq<byte>>)
    ensures FrontIs(v, codecs, h, sections) && MapsAre(h, sections) && BackIs(v, codecs, h, sections)
    ensures sections == Sections(v, codecs, h)
  {
    sections := Sections(v, codecs, h);
  }

  /** What writing has appended so far: the first `k` sections, behind as many bytes as the summary takes. */
  ghost predicate Wrote(sections: seq<seq<byte>>, buffer: seq<byte>, dummy: seq<byte>, k: nat) {
    k <= |sections| && buffer == dummy + Flat(sections[..k])
  }

  lemma {:induction false} WroteNext(sections: seq<seq<byte>>, buffer: seq<byte>, dummy: seq<byte>, k: nat)
    requires Wrote(sections, buffer, dummy, k) && k < |sections|
    ensures Wrote(sections, buffer + sections[k], dummy, k + 1)
    ensures |buffer| == |dummy| + StartOf(sections, k)
  {
    FlatAppend(sections[..k], sections[k]);
    assert sections[..k + 1] == sections[..k] + [sections[k]];
    assert dummy + Flat(sections[..k]) + sections[k] == dummy + (Flat(sections[..k]) + sections[k]);
  }

  method WriteHead(buffer: seq<byte>, codecs: PartCodecs, h: ZenHeader) returns (buffer': seq<byte>)
    ensures buffer' == buffer + HeadBytes(codecs, h)
  {
    buffer' := buffer;
    if !h.unversioned {
      buffer' := buffer' + codecs.versioning.encode(h.versioning);
    }
    buffer' := buffer' + codecs.names.encode(h.names);
  }

  lemma {:induction false} WroteNothing(sections: seq<seq<byte>>, dummy: seq<byte>)
    ensures Wrote(sections, dummy, dummy, 0)
  {
    assert sections[..0] == [] && dummy + [] == dummy;
  }

  lemma {:induction false} BulkSectionAt(v: Version, codecs: PartCodecs, h: ZenHeader, sections: seq<seq<byte>>,
                                         buffer: seq<byte>, dummy: seq<byte>)
    requires FrontIs(v, codecs, h, sections) && |dummy| == SummarySize(v) && buffer == dummy + HeadBytes(codecs, h)
    ensures sections[1] == BulkBytes(LayoutFor(h.versioning.ue5), |buffer|, h.bulkData)
  {
  }

  method WriteBulkSection(buffer: seq<byte>, ue5: int, bulkData: seq<seq<byte>>, ghost section: seq<byte>)
    returns (buffer': seq<byte>)
    requires section == BulkBytes(LayoutFor(ue5), |buffer|, bulkData)
    ensures buffer' == buffer + section
  {
    buffer' := WriteBulk(buffer, ue5, bulkData);
  }

  /** The head and the bulk data map, which the version of the package decides. */
  method WriteFront(v: Version, codecs: PartCodecs, h: ZenHeader, dummy: seq<byte>, ghost sections: seq<seq<byte>>)
    returns (buffer: seq<byte>)
    requires |dummy| == SummarySize(v) && FrontIs(v, codecs, h, sections)
    ensures Wrote(sections, buffer, dummy, 2)
  {
    WroteNothing(sections, dummy);
    WroteNext(sections, dummy, dummy, 0);
    buffer := WriteHead(dummy, codecs, h);
    WroteNext(sections, buffer, dummy, 1);
    BulkSectionAt(v, codecs, h, sections, buffer, dummy);
    buffer := WriteBulkSection(buffer, h.versioning.ue5, h.bulkData, sections[1]);
  }

  /** Offsets of the sections from the public export hashes on, up to section `k`. */
  ghost predicate OffsetsUpTo(base: nat, sections: seq<seq<byte>>, offsets: seq<nat>, k: nat) {
    2 <= k <= |sections| && |offsets| == k - 2 && forall i: nat :: i < k - 2 ==> OffsetIs(base, sections, offsets, i)
  }

  /** Where section `k + 2` starts, as the summary says. */
  ghost predicate OffsetIs(base: nat, sections: seq<seq<byte>>, offsets: seq<int>, k: nat)
    requires k < |offsets| && k + 2 <= |sections|
  {
    offsets[k] == base + StartOf(sections, k + 2)
  }

  lemma {:induction false} OneOffsetMore(base: nat, sections: seq<seq<byte>>, offsets: seq<nat>, k: nat, offset: nat)
    requires OffsetsUpTo(base, sections, offsets, k) && k < |sections| && offset == base + StartOf(sections, k)
    ensures OffsetsUpTo(base, sections, offsets + [offset], k + 1)
  {
    var offsets' := offsets + [offset];
    forall i: nat | i < k - 1 ensures OffsetIs(base, sections, offsets', i) {
      if i < k - 2 {
        assert OffsetIs(base, sections, offsets, i);
      }
    }
  }

  /** A section of records: its offset, then the records. */
  method WriteSection(buffer: seq<byte>, offsets: seq<nat>, records: seq<seq<byte>>,
                      ghost sections: seq<seq<byte>>, ghost dummy: seq<byte>, ghost k: nat)
    returns (buffer': seq<byte>, offsets': seq<nat>)
    requires Wrote(sections, buffer, dummy, k) && k < |sections| && Flat(records) == sections[k]
    requires OffsetsUpTo(|dummy|, sections, offsets, k)
    ensures Wrote(sections, buffer', dummy, k + 1) && OffsetsUpTo(|dummy|, sections, offsets', k + 1)
  {
    WroteNext(sections, buffer, dummy, k);
    OneOffsetMore(|dummy|, sections, offsets, k, |buffer|);
    offsets' := offsets + [|buffer|];
    buffer' := WriteRecords(buffer, records);
  }

  /** Public export hashes, imports, exports and bundle entries. */
  method WriteMaps(h: ZenHeader, front: seq<byte>, ghost sections: seq<seq<byte>>, ghost dummy: seq<byte>)
    returns (buffer: seq<byte>, offsets: seq<nat>)
    requires Wrote(sections, front, dummy, 2) && MapsAre(h, sections)
    ensures Wrote(sections, buffer, dummy, 6) && OffsetsUpTo(|dummy|, sections, offsets, 6)
  {
    buffer, offsets := WriteSection(front, [], h.publicExportHashes, sections, dummy, 2);
    buffer, offsets := WriteSection(buffer, offsets, h.importMap, sections, dummy, 3);
    buffer, offsets := WriteSection(buffer, offsets, h.exportMap, sections, dummy, 4);
    buffer, offsets := WriteSection(buffer, offsets, h.bundleEntries, sections, dummy, 5);
  }

  /** Dependency bundles and imported package names, or graph data. */
  method WriteBack(v: Version, codecs: PartCodecs, h: ZenHeader, maps: seq<byte>, offsets: seq<nat>,
                   ghost sections: seq<seq<byte>>, ghost dummy: seq<byte>)
    returns (buffer: seq<byte>, offsets': seq<nat>)
    requires Wrote(sections, maps, dummy, 6) && OffsetsUpTo(|dummy|, sections, offsets, 6) &&
             BackIs(v, codecs, h, sections)
    ensures Wrote(sections, buffer, dummy, |sections|) && OffsetsUpTo(|dummy|, sections, offsets', |sections|)
  {
    if StoresBundles(v) {
      buffer, offsets' := WriteSection(maps, offsets, h.dependencyHeaders, sections, dummy, 6);
      buffer, offsets' := WriteSection(buffer, offsets', h.dependencyEntries, sections, dummy, 7);
      WroteNext(sections, buffer, dummy, 8);
      OneOffsetMore(|dummy|, sections, offsets', 8, |buffer|);
      offsets' := offsets' + [|buffer|];
      buffer := buffer + codecs.names.encode(h.importedNames);
    } else {
      WroteNext(sections, maps, dummy, 6);
      OneOffsetMore(|dummy|, sections, offsets, 6, |maps|);
      offsets' := offsets + [|maps|];
      buffer := WriteGraph(maps, h);
    }
  }

  /** What the store entry of the package has to say for the header to be read again. */
  function FilledEntry(v: Version, h: ZenHeader, entry: StoreEntry): StoreEntry {
    var listed := entry.(importedPackages := h.importedPackages, shaderMapHashes := h.shaderMapHashes);
    if StoresBundles(v) then listed else listed.(exportCount := |h.exportMap|, exportBundleCount := |h.bundleHeaders|)
  }

  /** `FZenPackageHeader::serialize` for header versions after Initial, into a buffer of its own. */
  method SerializeHeader(v: Version, codecs: PartCodecs, h: ZenHeader, entry: StoreEntry)
    returns (buffer: seq<byte>, entry': StoreEntry)
    requires Modern(v) && h.Valid()
    ensures buffer == HeaderBytes(v, codecs, h) && entry' == FilledEntry(v, h, entry)
    ensures entry'.importedPackages == h.importedPackages && entry'.shaderMapHashes == h.shaderMapHashes
    ensures entry'.loadOrder == entry.loadOrder && entry'.exportBundlesSize == entry.exportBundlesSize
    ensures v.LocalizedPackages? || v.OptionalSegmentPackages? ==>
      entry'.exportCount == |h.exportMap| && entry'.exportBundleCount == |h.bundleHeaders|
    ensures v.NoExportInfo? || v.SoftPackageReferences? ==>
      entry'.exportCount == entry.exportCount && entry'.exportBundleCount == entry.exportBundleCount
  {
    ghost var sections := SectionsOf(v, codecs, h);
    var summary := Summary(if h.unversioned then 0 else 1, 0, h.identity, seq(OffsetCount(v), _ => 0));
    SummaryLength(summary, v);
    var dummy := SummaryBytes(summary);
    var front := WriteFront(v, codecs, h, dummy, sections);
    var maps, offsets := WriteMaps(h, front, sections, dummy);
    buffer, offsets := WriteBack(v, codecs, h, maps, offsets, sections, dummy);
    entry' := FilledEntry(v, h, entry);
    AllWritten(v, codecs, h, sections, buffer, dummy, offsets);
    summary := Summary(if h.unversioned then 0 else 1, |buffer|, h.identity, offsets);
    buffer := WriteAt(buffer, 0, SummaryBytes(summary));
  }

  lemma {:induction false} OffsetsAre(v: Version, codecs: PartCodecs, h: ZenHeader, sections: seq<seq<byte>>,
                                      offsets: seq<nat>)
    requires sections == Sections(v, codecs, h) && |sections| == OffsetCount(v) + 2 &&
             OffsetsUpTo(SummarySize(v), sections, offsets, |sections|)
    ensures offsets == FinalSummary(v, codecs, h).offsets
  {
    forall i: nat | i < |offsets| ensures offsets[i] == SectionStart(v, codecs, h, i + 2) {
      assert OffsetIs(SummarySize(v), sections, offsets, i);
    }
  }

  /** With every section written, patching the summary in front completes the header. */
  lemma {:induction false} AllWritten(v: Version, codecs: PartCodecs, h: ZenHeader, sections: seq<seq<byte>>,
                                      buffer: seq<byte>, dummy: seq<byte>, offsets: seq<nat>)
    requires |h.identity| == 16 && sections == Sections(v, codecs, h) && |sections| == OffsetCount(v) + 2 &&
             |dummy| == SummarySize(v)
    requires Wrote(sections, buffer, dummy, |sections|) && OffsetsUpTo(|dummy|, sections, offsets, |sections|)
    ensures WriteAt(buffer, 0, SummaryBytes(Summary(if h.unversioned then 0 else 1, |buffer|, h.identity, offsets)))
      == HeaderBytes(v, codecs, h)
  {
    assert sections[..|sections|] == sections;
    var summary := Summary(if h.unversioned then 0 else 1, |buffer|, h.identity, offsets);
    OffsetsAre(v, codecs, h, sections, offsets);
    assert summary == FinalSummary(v, codecs, h);
    SummaryLength(summary, v);
    PatchFront(dummy, Flat(sections), SummaryBytes(summary));
  }
}
