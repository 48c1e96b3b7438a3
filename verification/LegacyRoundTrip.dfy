/**
 * A package on its way through a legacy container: arcs written, fixed up in place, read back, dependencies rebuilt.
 */
module LegacyRoundTrip {
  import opened Package
  import opened Bytes
  import opened LoadOrder
  import opened ExportBundles
  import opened ArcDependencies
  import opened ArcMeaning
  import opened ArcRoundTrip
  import opened LegacyArcs
  import opened LegacyArcMeaning
  import opened PreloadDependencies

  // ---- Written, fixed up and read ----

  /** The source word of every listed arc holds the arc's placeholder. */
  lemma {:induction false} OffsetHoldsArc(was: seq<byte>, base: nat, offsets: seq<nat>, data: seq<PackageArcs>, o: nat)
    returns (p: nat, k: nat)
    requires Written(was, base, data) && Storable(data) && ArcOffsets(offsets, base, data, |data|) && o in offsets
    ensures p < |data| && k < |data[p].arcs| && o == ArcAt(base, data, p, k)
    ensures o + 4 <= |was| && ToI32(was[o..o + 4]) == data[p].arcs[k].from
  {
    assert IsArcOffset(o, base, data, |data|);
    p, k :| 0 <= p < |data| && 0 <= k < |data[p].arcs| && o == ArcAt(base, data, p, k);
    assert RecordWritten(was, base, data, p) && ArcWritten(was, o, data[p].arcs[k]) && data[p].arcs[k] in data[p].arcs;
    I32RoundTrip(data[p].arcs[k].from);
  }

  /** So the fix-up finds every target exactly when every placeholder has one. */
  lemma {:induction false} FoundAtOffsets(was: seq<byte>, base: nat, offsets: seq<nat>, data: seq<PackageArcs>,
                                          fixups: seq<ArcFixup>, imported: seq<Option<seq<PublicEntry>>>)
    requires Written(was, base, data) && Storable(data) && ArcOffsets(offsets, base, data, |data|)
    requires AllFound(data, fixups, imported)
    ensures forall o :: o in offsets ==> o + 4 <= |was| && TargetAt(fixups, imported, was, o).Success?
  {
    forall o | o in offsets ensures o + 4 <= |was| && TargetAt(fixups, imported, was, o).Success? {
      var p, k := OffsetHoldsArc(was, base, offsets, data, o);
      assert data[p].arcs[k] in data[p].arcs;
    }
  }

  lemma {:induction false} OffsetsInside(was: seq<byte>, base: nat, offsets: seq<nat>, data: seq<PackageArcs>)
    requires Written(was, base, data) && Storable(data) && ArcOffsets(offsets, base, data, |data|)
    ensures forall i, j :: 0 <= i < j < |offsets| ==> offsets[i] + 4 <= offsets[j]
    ensures forall o :: o in offsets ==> o + 4 <= |was|
  {
    forall o | o in offsets ensures o + 4 <= |was| {
      var p, k := OffsetHoldsArc(was, base, offsets, data, o);
    }
  }

  /** The bundle numbers that other packages publish fit the stored width. */
  ghost predicate BundlesFit(imported: seq<Option<seq<PublicEntry>>>) {
    forall p, e :: 0 <= p < |imported| && imported[p].Some? && e in imported[p].value ==> IsI32(e.bundle)
  }

  lemma {:induction false} FoundIsMember(entries: seq<PublicEntry>, objectIndex: nat, command: Command)
    requires FindEntry(entries, objectIndex, command).Some?
    ensures FindEntry(entries, objectIndex, command).value in entries
  {
    if !(entries[0].objectIndex == objectIndex && entries[0].command == command) {
      FoundIsMember(entries[1..], objectIndex, command);
    }
  }

  lemma {:induction false} TargetFits(fixups: seq<ArcFixup>, imported: seq<Option<seq<PublicEntry>>>, placeholder: int)
    requires BundlesFit(imported) && Target(fixups, imported, placeholder).Success?
    ensures IsI32(Target(fixups, imported, placeholder).value)
  {
    var fixup := FindFixup(fixups, placeholder).value;
    if fixup.importedPackage < |imported| && imported[fixup.importedPackage].Some? {
      FoundIsMember(imported[fixup.importedPackage].value, fixup.objectIndex, fixup.command);
    }
  }

  lemma {:induction false} FixedStorable(data: seq<PackageArcs>, fixups: seq<ArcFixup>,
                                         imported: seq<Option<seq<PublicEntry>>>)
    requires Storable(data) && BundlesFit(imported) && AllFound(data, fixups, imported)
    ensures Storable(Fixed(data, fixups, imported))
  {
    var fixed := Fixed(data, fixups, imported);
    forall p | 0 <= p < |fixed| ensures ArcsStorable(fixed[p].arcs) {
      forall a | a in fixed[p].arcs ensures IsI32(a.from) && IsI32(a.to) {
        var k :| 0 <= k < |fixed[p].arcs| && fixed[p].arcs[k] == a;
        assert data[p].arcs[k] in data[p].arcs;
        TargetFits(fixups, imported, data[p].arcs[k].from);
      }
    }
  }

  /**
   * The graph data of one package from writing to reading, with the fix-up between them: it succeeds exactly when
   * every placeholder has a target, and then the arcs read are those written with the targets filled in.
   */
  method WriteFixRead(before: seq<byte>, ids: seq<nat>, arcs: seq<seq<BundleArc>>, fixups: seq<ArcFixup>,
                      imported: seq<Option<seq<PublicEntry>>>)
    returns (r: Result<seq<PackageArcs>>)
    requires |ids| == |arcs| && Storable(NonEmpty(ids, arcs, |ids|)) && BundlesFit(imported)
    ensures r.Success? <==> AllFound(NonEmpty(ids, arcs, |ids|), fixups, imported)
    ensures r.Success? ==> r.value == Fixed(NonEmpty(ids, arcs, |ids|), fixups, imported)
  {
    var after, offsets;
    ghost var data;
    after, offsets, data := WriteLegacyGraph(before, ids, arcs);
    OffsetsInside(after, |before|, offsets, data);
    var buffer := new byte[|after|](i requires 0 <= i < |after| => after[i]);
    assert buffer[..] == after;
    var package := new ConvertedPackage(buffer, offsets, fixups);
    var fixed := package.FixupLegacyExternalArcs(imported);
    if fixed.Failure? {
      if AllFound(data, fixups, imported) {
        FoundAtOffsets(after, |before|, offsets, data, fixups, imported);
      }
      return Failure(fixed.error);
    }
    FixupReplacesPlaceholders(after, buffer[..], offsets, |before|, data, fixups, imported);
    FixedStorable(data, fixups, imported);
    var read := ReadLegacyGraph(buffer[..], |before|, Fixed(data, fixups, imported));
    r := Success(read);
  }

  // ---- Which placeholders have a target ----

  /** The imported package is not being converted, or it publishes the command of the object. */
  ghost predicate Findable(imported: seq<Option<seq<PublicEntry>>>, importMap: seq<ImportSlot>, u: DepNode)
    requires OnSomePackage(importMap, u)
  {
    var slot := importMap[u.target.importIndex];
    slot.importedPackage >= |imported| || imported[slot.importedPackage].None?
    || FindEntry(imported[slot.importedPackage].value, slot.objectIndex, u.command).Some?
  }

  lemma {:induction false} TargetIffFindable(fixups: seq<ArcFixup>, imported: seq<Option<seq<PublicEntry>>>,
                                             importMap: seq<ImportSlot>, u: DepNode, id: nat)
    requires id < |fixups| && forall k :: 0 <= k < |fixups| ==> fixups[k].id == k
    requires OnSomePackage(importMap, u) && fixups[id] == FixupOf(importMap, u, id)
    ensures Target(fixups, imported, id).Success? <==> Findable(imported, importMap, u)
  {
    FindFixupByNumber(fixups, 0, id);
  }

  /** The records of graph data are those of the packages that have arcs. */
  lemma {:induction false} RecordOf(ids: seq<nat>, arcs: seq<seq<BundleArc>>, n: nat, p: nat)
    requires p < n <= |ids| == |arcs| && arcs[p] != []
    ensures PackageArcs(ids[p], arcs[p]) in NonEmpty(ids, arcs, n)
  {
    if p < n - 1 {
      RecordOf(ids, arcs, n - 1, p);
    }
  }

  lemma {:induction false} PackageOf(ids: seq<nat>, arcs: seq<seq<BundleArc>>, n: nat, record: PackageArcs)
    returns (p: nat)
    requires n <= |ids| == |arcs| && record in NonEmpty(ids, arcs, n)
    ensures p < n && record == PackageArcs(ids[p], arcs[p])
  {
    if record in NonEmpty(ids, arcs, n - 1) {
      p := PackageOf(ids, arcs, n - 1, record);
    } else {
      p := n - 1;
    }
  }

  /** The arc that stands for a dependency on another package. */
  lemma {:induction false} ArcForNeed(arcs: seq<seq<BundleArc>>, fixups: seq<ArcFixup>, sources: seq<Need>,
                                      importMap: seq<ImportSlot>, bundleOf: map<DepNode, nat>, seen: set<Need>,
                                      need: Need)
    returns (id: nat)
    requires LegacyArcsFor(arcs, fixups, sources, importMap, bundleOf, seen)
    requires need in seen && OnSomePackage(importMap, need.0)
    ensures id < |fixups| && fixups[id] == FixupOf(importMap, need.0, id) && need.1 in bundleOf
    ensures fixups[id].importedPackage < |arcs| && BundleArc(id, bundleOf[need.1]) in arcs[fixups[id].importedPackage]
  {
    assert need in sources;
    id :| 0 <= id < |sources| && sources[id] == need;
    assert Numbered(arcs, fixups, sources, importMap, bundleOf, id);
  }

  /** Each of these dependencies that is on another package is findable. */
  ghost predicate AllFindable(imported: seq<Option<seq<PublicEntry>>>, importMap: seq<ImportSlot>, seen: set<Need>) {
    forall need :: need in seen && OnSomePackage(importMap, need.0) ==> Findable(imported, importMap, need.0)
  }

  /** Every placeholder has a target exactly when every dependency on another package is findable. */
  lemma {:induction false} AllFoundIffFindable(ids: seq<nat>, arcs: seq<seq<BundleArc>>, fixups: seq<ArcFixup>,
                                               sources: seq<Need>, importMap: seq<ImportSlot>,
                                               bundleOf: map<DepNode, nat>, seen: set<Need>,
                                               imported: seq<Option<seq<PublicEntry>>>)
    requires |ids| == |arcs| && LegacyArcsFor(arcs, fixups, sources, importMap, bundleOf, seen)
    requires forall k :: 0 <= k < |fixups| ==> fixups[k].id == k
    ensures AllFound(NonEmpty(ids, arcs, |ids|), fixups, imported) <==> AllFindable(imported, importMap, seen)
  {
    var data := NonEmpty(ids, arcs, |ids|);
    if AllFound(data, fixups, imported) {
      forall need | need in seen && OnSomePackage(importMap, need.0) ensures Findable(imported, importMap, need.0) {
        var id := ArcForNeed(arcs, fixups, sources, importMap, bundleOf, seen, need);
        RecordOf(ids, arcs, |ids|, fixups[id].importedPackage);
        assert Target(fixups, imported, id).Success?;
        TargetIffFindable(fixups, imported, importMap, need.0, id);
      }
    }
    if AllFindable(imported, importMap, seen) {
      forall q, a | 0 <= q < |data| && a in data[q].arcs ensures Target(fixups, imported, a.from).Success? {
        var p := PackageOf(ids, arcs, |ids|, data[q]);
        assert NumberedArc(fixups, sources, bundleOf, p, a);
        assert Numbered(arcs, fixups, sources, importMap, bundleOf, a.from) && sources[a.from] in seen;
        TargetIffFindable(fixups, imported, importMap, sources[a.from].0, a.from);
      }
    }
  }

  // ---- The data to rebuild from ----

  /** The other packages: their ids, what they were converted to, and what a reader loads for an id. */
  datatype Others = Others(ids: seq<nat>, conversions: seq<Option<Conversion>>, loaded: map<nat, ImportedPackage>) {
    ghost predicate Valid() {
      && |ids| == |conversions|
      && (forall p ::
          0 <= p < |conversions| && conversions[p].Some? ==>
          conversions[p].value.Valid() && LoadsAs(p, conversions[p].value))
      && (forall id :: id in loaded ==> loaded[id].Valid())
    }

    /** A converted package is read with its bundles. */
    ghost predicate LoadsAs(p: nat, c: Conversion)
      requires p < |ids|
    {
      ids[p] in loaded ==>
        loaded[ids[p]].headers == c.headers && loaded[ids[p]].entries == EntriesOf(c.order, |c.order|)
    }

    /** What the converted packages publish. */
    ghost predicate Publish(imported: seq<Option<seq<PublicEntry>>>) {
      && Valid() && |imported| == |conversions|
      && forall p :: 0 <= p < |imported| ==> PublishedBy(p, imported[p])
    }

    ghost predicate PublishedBy(p: nat, entries: Option<seq<PublicEntry>>)
      requires Valid() && p < |conversions|
    {
      entries == if conversions[p].Some? then Some(conversions[p].value.PublicEntries()) else None
    }
  }

  function Load(loaded: map<nat, ImportedPackage>, id: nat): Option<ImportedPackage> {
    if id in loaded then Some(loaded[id]) else None
  }

  lemma {:induction false} PublishedBundle(order: seq<GraphNode>, objectIndex: seq<nat>, n: nat, e: PublicEntry)
    returns (i: nat)
    requires n <= |order| && (forall g :: g in order ==> g.exportIndex < |objectIndex|) &&
             e in PublicEntriesOf(order, objectIndex, n)
    ensures i < n && e.bundle == BundleAt(order, i)
  {
    if e in PublicEntriesOf(order, objectIndex, n - 1) {
      i := PublishedBundle(order, objectIndex, n - 1, e);
    } else {
      i := n - 1;
    }
  }

  /** A target is a bundle of the converted package, or -1 for a package that is not converted. */
  lemma {:induction false} TargetInRange(others: Others, imported: seq<Option<seq<PublicEntry>>>,
                                         fixups: seq<ArcFixup>, id: nat)
    requires others.Publish(imported) && id < |fixups| && forall k :: 0 <= k < |fixups| ==> fixups[k].id == k
    requires fixups[id].importedPackage < |imported| && Target(fixups, imported, id).Success?
    ensures others.conversions[fixups[id].importedPackage].None? ==> Target(fixups, imported, id).value == -1
    ensures others.conversions[fixups[id].importedPackage].Some? ==>
      0 <= Target(fixups, imported, id).value < |others.conversions[fixups[id].importedPackage].value.headers|
  {
    var p := fixups[id].importedPackage;
    assert others.PublishedBy(p, imported[p]);
    FindFixupByNumber(fixups, 0, id);
    if others.conversions[p].Some? {
      var c := others.conversions[p].value;
      FoundIsMember(imported[p].value, fixups[id].objectIndex, fixups[id].command);
      var i := PublishedBundle(c.order, c.objectIndex, |c.order|,
                               FindEntry(imported[p].value, fixups[id].objectIndex, fixups[id].command).value);
      assert InBundle(c.headers, c.order, i);
    }
  }

  /** What a package's builder holds when its bundles have been cut and its arcs built. */
  ghost predicate BuiltLegacy(builder: ZenPackageBuilder, order: seq<GraphNode>, deps: Dependencies, n: nat)
    reads builder
  {
    && builder.legacyContainer && builder.fixupArcs && builder.ArcsValid()
    && Ordered(order, builder.publicExports, n, deps)
    && BuiltFrom(builder.headers, BundleMap(order, |order|), order, builder.exportSizes) &&
       builder.entries == EntriesOf(order, |order|)
    && builder.ArcsMatch(BundleMap(order, |order|), Needs(deps, n))
  }

  /** The arcs as read, with the package that each list is on. */
  ghost predicate ReadFrom(z: ArcData, builder: ZenPackageBuilder, ids: seq<nat>, read: seq<PackageArcs>,
                           loaded: map<nat, ImportedPackage>, n: nat)
    reads builder
  {
    && z.exportCount == n && z.headers == builder.headers && z.entries == builder.entries
    && z.internalArcs == [] && z.importArcs == [] && z.legacyContainer
    && |z.legacyArcs| == |read| == |z.imported|
    && forall q :: 0 <= q < |read| ==> z.legacyArcs[q] == read[q].arcs && z.imported[q] == Load(loaded, read[q].id)
  }

  /** A fixed-up arc leads from an existing bundle of the other package to an existing bundle of this one. */
  lemma {:induction false} FixedArcInRange(builder: ZenPackageBuilder, order: seq<GraphNode>, deps: Dependencies,
                                           n: nat, others: Others, imported: seq<Option<seq<PublicEntry>>>, q: nat,
                                           a: BundleArc)
    requires BuiltLegacy(builder, order, deps, n) && others.Publish(imported) && |others.ids| == |builder.legacyArcs|
    requires AllFound(NonEmpty(others.ids, builder.legacyArcs, |others.ids|), builder.fixups, imported)
    requires var fixed := Fixed(NonEmpty(others.ids, builder.legacyArcs, |others.ids|), builder.fixups, imported);
      q < |fixed| && a in fixed[q].arcs && fixed[q].id in others.loaded
    ensures a.to < |builder.headers|
    ensures var fixed := Fixed(NonEmpty(others.ids, builder.legacyArcs, |others.ids|), builder.fixups, imported);
      -1 <= a.from < |others.loaded[fixed[q].id].headers|
  {
    var data := NonEmpty(others.ids, builder.legacyArcs, |others.ids|);
    var fixed := Fixed(data, builder.fixups, imported);
    var k :| 0 <= k < |fixed[q].arcs| && fixed[q].arcs[k] == a;
    var was := data[q].arcs[k];
    assert was in data[q].arcs;
    var p := PackageOf(others.ids, builder.legacyArcs, |others.ids|, data[q]);
    assert NumberedArc(builder.fixups, builder.sources, BundleMap(order, |order|), p, was);
    BundleInRange(builder.headers, order, builder.exportSizes, builder.publicExports, builder.sources[was.from].1);
    TargetInRange(others, imported, builder.fixups, was.from);
    assert others.loaded[others.ids[p]].Valid();
    if others.conversions[p].Some? {
      assert others.LoadsAs(p, others.conversions[p].value);
    }
  }

  ghost predicate LegacyArcsInRange(z: ArcData) {
    && |z.legacyArcs| == |z.imported|
    && (forall q :: 0 <= q < |z.imported| && z.imported[q].Some? ==> z.imported[q].value.Valid())
    && (forall q, a :: 0 <= q < |z.imported| && z.imported[q].Some? && a in z.legacyArcs[q] ==>
          -1 <= a.from < |z.imported[q].value.headers| && a.to < |z.headers|)
  }

  lemma {:induction false} ReadArcsInRange(z: ArcData, builder: ZenPackageBuilder, order: seq<GraphNode>,
                                           deps: Dependencies, n: nat, others: Others,
                                           imported: seq<Option<seq<PublicEntry>>>, read: seq<PackageArcs>)
    requires BuiltLegacy(builder, order, deps, n) && others.Publish(imported) && |others.ids| == |builder.legacyArcs|
    requires AllFound(NonEmpty(others.ids, builder.legacyArcs, |others.ids|), builder.fixups, imported)
    requires read == Fixed(NonEmpty(others.ids, builder.legacyArcs, |others.ids|), builder.fixups, imported)
    requires ReadFrom(z, builder, others.ids, read, others.loaded, n)
    ensures LegacyArcsInRange(z)
  {
    forall q, a | 0 <= q < |z.imported| && z.imported[q].Some? && a in z.legacyArcs[q]
      ensures -1 <= a.from < |z.imported[q].value.headers| && a.to < |z.headers|
    {
      FixedArcInRange(builder, order, deps, n, others, imported, q, a);
    }
    forall q | 0 <= q < |z.imported| && z.imported[q].Some? ensures z.imported[q].value.Valid() {
      assert read[q].id in others.loaded;
    }
  }

  lemma {:induction false} ReadDataValid(z: ArcData)
    requires z.internalArcs == [] && z.importArcs == [] && LegacyArcsInRange(z)
    requires forall b :: 0 <= b < |z.headers| ==> z.headers[b].entryCount > 0 && z.headers[b].End() <= |z.entries|
    requires forall e :: e in z.entries ==> e.target.Export? && e.target.exportIndex < z.exportCount
    ensures z.Valid()
  {
  }

  /** What was read can be rebuilt from. */
  lemma {:induction false} ReadDataBundled(z: ArcData, order: seq<GraphNode>, public: seq<bool>, sizes: seq<nat>,
                                           deps: Dependencies)
    requires Ordered(order, public, z.exportCount, deps) &&
             BuiltFrom(z.headers, BundleMap(order, |order|), order, sizes)
    requires z.entries == EntriesOf(order, |order|) && z.internalArcs == [] && z.importArcs == [] &&
             LegacyArcsInRange(z)
    ensures Bundled(z, order, sizes)
  {
    EntriesInRange(z.headers, z.entries, order, public, sizes, z.exportCount, deps);
    ReadDataValid(z);
  }

  // ---- Every dependency is still there ----

  /** Command `i` of the converted package is the public one that the dependency is on. */
  ghost predicate Meant(importMap: seq<ImportSlot>, u: DepNode, c: Conversion, i: nat)
    requires OnSomePackage(importMap, u) && c.Valid()
  {
    && i < |c.order| && c.order[i] in c.order && c.order[i].isPublic && c.order[i].command == u.command
    && c.objectIndex[c.order[i].exportIndex] == importMap[u.target.importIndex].objectIndex
  }

  /** The arc that stands for a dependency, as it is read: its source is the target of the placeholder `id`. */
  lemma {:induction false} ArcAsRead(builder: ZenPackageBuilder, order: seq<GraphNode>, deps: Dependencies, n: nat,
                                     others: Others, imported: seq<Option<seq<PublicEntry>>>, need: Need)
    returns (q: nat, a: BundleArc, id: nat)
    requires BuiltLegacy(builder, order, deps, n) && others.Publish(imported) && |others.ids| == |builder.legacyArcs|
    requires AllFound(NonEmpty(others.ids, builder.legacyArcs, |others.ids|), builder.fixups, imported)
    requires need in Needs(deps, n) && OnSomePackage(builder.importMap, need.0)
    ensures var p := builder.importMap[need.0.target.importIndex].importedPackage;
      var fixed := Fixed(NonEmpty(others.ids, builder.legacyArcs, |others.ids|), builder.fixups, imported);
      && p < |others.ids| && q < |fixed| && fixed[q].id == others.ids[p] && a in fixed[q].arcs
      && need.1 in BundleMap(order, |order|) && a.to == BundleMap(order, |order|)[need.1]
      && id < |builder.fixups| && builder.fixups[id] == FixupOf(builder.importMap, need.0, id)
      && Target(builder.fixups, imported, id) == Success(a.from)
  {
    var p := builder.importMap[need.0.target.importIndex].importedPackage;
    var arcs, data := builder.legacyArcs, NonEmpty(others.ids, builder.legacyArcs, |others.ids|);
    var fixed := Fixed(data, builder.fixups, imported);
    id := ArcForNeed(arcs, builder.fixups, builder.sources, builder.importMap, BundleMap(order, |order|),
                     Needs(deps, n), need);
    RecordOf(others.ids, arcs, |others.ids|, p);
    q :| 0 <= q < |data| && data[q] == PackageArcs(others.ids[p], arcs[p]);
    var k :| 0 <= k < |data[q].arcs| && data[q].arcs[k] == BundleArc(id, BundleMap(order, |order|)[need.1]);
    assert data[q].arcs[k] in data[q].arcs;
    a := fixed[q].arcs[k];
  }

  lemma {:induction false} FixupOfOne(others: Others, imported: seq<Option<seq<PublicEntry>>>, fixups: seq<ArcFixup>,
                                      id: nat, i: nat)
    requires others.Publish(imported) && id < |fixups| && forall k :: 0 <= k < |fixups| ==> fixups[k].id == k
    requires fixups[id].importedPackage < |others.conversions| && others.conversions[fixups[id].importedPackage].Some?
    requires var c := others.conversions[fixups[id].importedPackage].value;
      && i < |c.order| && c.order[i] in c.order && c.order[i].isPublic
      && fixups[id].command == c.order[i].command && fixups[id].objectIndex == c.objectIndex[c.order[i].exportIndex]
    ensures var c := others.conversions[fixups[id].importedPackage].value;
      && Target(fixups, imported, id).Success? && 0 <= Target(fixups, imported, id).value < |c.headers|
      && c.headers[Target(fixups, imported, id).value].End() - 1 == i
  {
    forall p | 0 <= p < |imported| && others.conversions[p].Some?
      ensures others.conversions[p].value.Valid() && imported[p] == Some(others.conversions[p].value.PublicEntries())
    {
      assert others.PublishedBy(p, imported[p]);
    }
    FixupIsExact(fixups, others.conversions, imported, id, i);
  }

  /** The import that a reader makes for the export that a dependency is on. */
  ghost predicate Imported(others: Others, p: nat, c: Conversion, i: nat)
    requires p < |others.ids| && i < |c.order|
  {
    others.ids[p] in others.loaded && c.order[i].exportIndex in others.loaded[others.ids[p]].importOf
  }

  /** The dependency is on the public command `i` of a converted package, and the reader imports its export. */
  ghost predicate OnConverted(importMap: seq<ImportSlot>, others: Others, u: DepNode, i: nat)
    requires others.Valid()
  {
    && OnSomePackage(importMap, u)
    && var p := importMap[u.target.importIndex].importedPackage;
    && p < |others.conversions| && others.conversions[p].Some?
    && Meant(importMap, u, others.conversions[p].value, i) && Imported(others, p, others.conversions[p].value, i)
  }

  /** That import is loaded before the dependent command. */
  ghost predicate ImportForced(all: seq<ExportDependencies>, importMap: seq<ImportSlot>, others: Others, need: Need,
                               i: nat)
    requires others.Valid() && OnConverted(importMap, others, need.0, i)
  {
    var p := importMap[need.0.target.importIndex].importedPackage;
    var made := others.loaded[others.ids[p]].importOf[others.conversions[p].value.order[i].exportIndex];
    Forces(all, DepNode(Import(made), need.0.command), need.1)
  }

  ghost predicate ImportsForced(all: seq<ExportDependencies>, importMap: seq<ImportSlot>, deps: Dependencies, n: nat,
                                others: Others)
    requires others.Valid()
  {
    forall need: Need, i: nat :: need in Needs(deps, n) && OnConverted(importMap, others, need.0, i) ==>
      ImportForced(all, importMap, others, need, i)
  }

  lemma {:induction false} DependencyForced(z: ArcData, all: seq<ExportDependencies>, builder: ZenPackageBuilder,
                                            order: seq<GraphNode>, deps: Dependencies, n: nat, others: Others,
                                            imported: seq<Option<seq<PublicEntry>>>, read: seq<PackageArcs>,
                                            need: Need, i: nat)
    requires BuiltLegacy(builder, order, deps, n) && others.Publish(imported) && |others.ids| == |builder.legacyArcs|
    requires AllFound(NonEmpty(others.ids, builder.legacyArcs, |others.ids|), builder.fixups, imported)
    requires read == Fixed(NonEmpty(others.ids, builder.legacyArcs, |others.ids|), builder.fixups, imported)
    requires ReadFrom(z, builder, others.ids, read, others.loaded, n) && Bundled(z, order, builder.exportSizes) &&
             Rebuilt(z, all)
    requires need in Needs(deps, n) && OnConverted(builder.importMap, others, need.0, i)
    ensures ImportForced(all, builder.importMap, others, need, i)
  {
    var p := builder.importMap[need.0.target.importIndex].importedPackage;
    var c := others.conversions[p].value;
    var q, a, id := ArcAsRead(builder, order, deps, n, others, imported, need);
    FixupOfOne(others, imported, builder.fixups, id, i);
    assert others.LoadsAs(p, c);
    var j := BundleOfCommand(order, builder.publicExports, need.1);
    LegacyDependencyForced(z, all, order, builder.exportSizes, j, q, a, c, i);
  }

  lemma {:induction false} AllImportsForced(z: ArcData, all: seq<ExportDependencies>, builder: ZenPackageBuilder,
                                            order: seq<GraphNode>, deps: Dependencies, n: nat, others: Others,
                                            imported: seq<Option<seq<PublicEntry>>>, read: seq<PackageArcs>)
    requires BuiltLegacy(builder, order, deps, n) && others.Publish(imported) && |others.ids| == |builder.legacyArcs|
    requires AllFound(NonEmpty(others.ids, builder.legacyArcs, |others.ids|), builder.fixups, imported)
    requires read == Fixed(NonEmpty(others.ids, builder.legacyArcs, |others.ids|), builder.fixups, imported)
    requires ReadFrom(z, builder, others.ids, read, others.loaded, n) && Bundled(z, order, builder.exportSizes) &&
             Rebuilt(z, all)
    ensures ImportsForced(all, builder.importMap, deps, n, others)
  {
    forall need: Need, i: nat | need in Needs(deps, n) && OnConverted(builder.importMap, others, need.0, i)
      ensures ImportForced(all, builder.importMap, others, need, i)
    {
      DependencyForced(z, all, builder, order, deps, n, others, imported, read, need, i);
    }
  }

  /**
   * The dependency is on a package that is not converted but that the reader can look up: it ends with entry `last`,
   * for whose export an import is made.
   */
  ghost predicate OnUnconverted(importMap: seq<ImportSlot>, others: Others, u: DepNode, last: DepNode)
    requires others.Valid()
  {
    && OnSomePackage(importMap, u)
    && var p := importMap[u.target.importIndex].importedPackage;
    && p < |others.conversions| && others.conversions[p].None? && others.ids[p] in others.loaded
    && EndsWith(others.loaded[others.ids[p]], last)
  }

  ghost predicate EndsWith(package: ImportedPackage, last: DepNode) {
    && Tiles(package.headers, |package.entries|) && package.entries != []
    && package.entries[|package.entries| - 1] == last && last.target.Export?
    && last.target.exportIndex in package.importOf
  }

  /** All of such a package is loaded first: the import of its last export precedes the dependent command. */
  ghost predicate LastForced(all: seq<ExportDependencies>, importMap: seq<ImportSlot>, others: Others, need: Need,
                             last: DepNode)
    requires others.Valid() && OnUnconverted(importMap, others, need.0, last)
  {
    var p := importMap[need.0.target.importIndex].importedPackage;
    Forces(all, DepNode(Import(others.loaded[others.ids[p]].importOf[last.target.exportIndex]), last.command), need.1)
  }

  ghost predicate LastsForced(all: seq<ExportDependencies>, importMap: seq<ImportSlot>, deps: Dependencies, n: nat,
                              others: Others)
    requires others.Valid()
  {
    forall need: Need, last :: need in Needs(deps, n) && OnUnconverted(importMap, others, need.0, last) ==>
      LastForced(all, importMap, others, need, last)
  }

  lemma {:induction false} UnconvertedForced(z: ArcData, all: seq<ExportDependencies>, builder: ZenPackageBuilder,
                                             order: seq<GraphNode>, deps: Dependencies, n: nat, others: Others,
                                             imported: seq<Option<seq<PublicEntry>>>, read: seq<PackageArcs>,
                                             need: Need, last: DepNode)
    requires BuiltLegacy(builder, order, deps, n) && others.Publish(imported) && |others.ids| == |builder.legacyArcs|
    requires AllFound(NonEmpty(others.ids, builder.legacyArcs, |others.ids|), builder.fixups, imported)
    requires read == Fixed(NonEmpty(others.ids, builder.legacyArcs, |others.ids|), builder.fixups, imported)
    requires ReadFrom(z, builder, others.ids, read, others.loaded, n) && Bundled(z, order, builder.exportSizes) &&
             Rebuilt(z, all)
    requires need in Needs(deps, n) && OnUnconverted(builder.importMap, others, need.0, last)
    ensures LastForced(all, builder.importMap, others, need, last)
  {
    var p := builder.importMap[need.0.target.importIndex].importedPackage;
    var q, a, id := ArcAsRead(builder, order, deps, n, others, imported, need);
    assert others.PublishedBy(p, imported[p]);
    UnconvertedMeansLast(builder.fixups, imported, id);
    var j := BundleOfCommand(order, builder.publicExports, need.1);
    LastEntryForced(z, all, order, builder.exportSizes, j, q, a);
  }

  lemma {:induction false} AllLastsForced(z: ArcData, all: seq<ExportDependencies>, builder: ZenPackageBuilder,
                                          order: seq<GraphNode>, deps: Dependencies, n: nat, others: Others,
                                          imported: seq<Option<seq<PublicEntry>>>, read: seq<PackageArcs>)
    requires BuiltLegacy(builder, order, deps, n) && others.Publish(imported) && |others.ids| == |builder.legacyArcs|
    requires AllFound(NonEmpty(others.ids, builder.legacyArcs, |others.ids|), builder.fixups, imported)
    requires read == Fixed(NonEmpty(others.ids, builder.legacyArcs, |others.ids|), builder.fixups, imported)
    requires ReadFrom(z, builder, others.ids, read, others.loaded, n) && Bundled(z, order, builder.exportSizes) &&
             Rebuilt(z, all)
    ensures LastsForced(all, builder.importMap, deps, n, others)
  {
    forall need: Need, last | need in Needs(deps, n) && OnUnconverted(builder.importMap, others, need.0, last)
      ensures LastForced(all, builder.importMap, others, need, last)
    {
      UnconvertedForced(z, all, builder, order, deps, n, others, imported, read, need, last);
    }
  }

  lemma {:induction false} AllExportsForced(z: ArcData, all: seq<ExportDependencies>, order: seq<GraphNode>,
                                            sizes: seq<nat>, public: seq<bool>, deps: Dependencies)
    requires Bundled(z, order, sizes) && Ordered(order, public, z.exportCount, deps) && Rebuilt(z, all) &&
             z.legacyContainer
    ensures forall v, u :: v in z.entries && u in DependenciesOf(deps, v) && u.target.Export? ==> Forces(all, u, v)
  {
    forall v, u | v in z.entries && u in DependenciesOf(deps, v) && u.target.Export? ensures Forces(all, u, v) {
      ExportDependencyForced(z, all, order, sizes, public, deps, u, v);
    }
  }

  /** The rebuild of what was read cannot fail. */
  method Rebuild(z: ArcData, ghost order: seq<GraphNode>, ghost sizes: seq<nat>, ghost public: seq<bool>,
                 ghost deps: Dependencies)
    returns (r: Result<seq<ExportDependencies>>)
    requires Bundled(z, order, sizes) && Ordered(order, public, z.exportCount, deps) && z.legacyContainer &&
             z.internalArcs == []
    ensures r.Success? && |r.value| == z.exportCount && Rebuilt(z, r.value)
    ensures forall v, u :: v in z.entries && u in DependenciesOf(deps, v) && u.target.Export? ==> Forces(r.value, u, v)
    ensures KeepsOrder(r.value, z.entries) && Loadable(r.value) && ListsNeighbours(r.value, z.entries)
  {
    forall u, v | z.Link(u, v) ensures !BadSelfLink(u, v) {
      NoBadSelfLink(z, order, sizes, public, z.exportCount, deps, u, v);
    }
    r := ResolveArcs(z);
    AllExportsForced(z, r.value, order, sizes, public, deps);
    RebuiltIsAcyclic(z, r.value, order, sizes, public, deps);
    LegacyListsNeighbours(z, r.value, order, sizes);
  }

  /**
   * A package written to a legacy container, fixed up when all packages have been converted, read back and rebuilt.
   * This succeeds exactly when each dependency on a converted package is on a command that the package publishes.
   * Then the rebuilt lists enforce every dependency between exports and every dependency on an export of a converted
   * package, name exactly the neighbours in the load order, and are free of cycles.
   */
  method CarryThroughContainer(builder: ZenPackageBuilder, exportCount: nat, ids: seq<nat>, before: seq<byte>,
                               imported: seq<Option<seq<PublicEntry>>>, loaded: map<nat, ImportedPackage>,
                               ghost order: seq<GraphNode>, ghost deps: Dependencies, ghost others: Others)
    returns (r: Result<seq<ExportDependencies>>)
    requires BuiltLegacy(builder, order, deps, exportCount)
    requires others.Publish(imported) && others.ids == ids && others.loaded == loaded &&
             |ids| == builder.importedPackages
    requires Storable(NonEmpty(ids, builder.legacyArcs, |ids|)) && BundlesFit(imported)
    ensures r.Success? <==> AllFindable(imported, builder.importMap, Needs(deps, exportCount))
    ensures r.Success? ==> |r.value| == exportCount
    ensures r.Success? ==> forall v, u ::
      v in EntriesOf(order, |order|) && u in DependenciesOf(deps, v) && u.target.Export? ==> Forces(r.value, u, v)
    ensures r.Success? ==> ImportsForced(r.value, builder.importMap, deps, exportCount, others)
    ensures r.Success? ==> LastsForced(r.value, builder.importMap, deps, exportCount, others)
    ensures r.Success? ==> ListsNeighbours(r.value, EntriesOf(order, |order|))
    ensures r.Success? ==> KeepsOrder(r.value, EntriesOf(order, |order|)) && Loadable(r.value)
  {
    AllFoundIffFindable(ids, builder.legacyArcs, builder.fixups, builder.sources, builder.importMap,
                        BundleMap(order, |order|),
                        Needs(deps, exportCount), imported);
    var read := WriteFixRead(before, ids, builder.legacyArcs, builder.fixups, imported);
    if read.Failure? {
      return Failure(read.error);
    }
    var z := ArcData(exportCount, builder.headers, builder.entries, [], [], true,
                     seq(|read.value|, q requires 0 <= q < |read.value| => read.value[q].arcs),
                     seq(|read.value|, q requires 0 <= q < |read.value| => Load(loaded, read.value[q].id)), map[]);
    ReadArcsInRange(z, builder, order, deps, exportCount, others, imported, read.value);
    ReadDataBundled(z, order, builder.publicExports, builder.exportSizes, deps);
    r := Rebuild(z, order, builder.exportSizes, builder.publicExports, deps);
    AllImportsForced(z, r.value, builder, order, deps, exportCount, others, imported, read.value);
    AllLastsForced(z, r.value, builder, order, deps, exportCount, others, imported, read.value);
  }

  // ---- From exports and the flat table ----

  /** Number of references that the first `n` exports list, with one more for the Create command of each. */
  ghost function ReferenceCount(exports: seq<ObjectExport>, table: seq<PackageIndex>, n: nat): nat
    requires n <= |exports| && forall e :: 0 <= e < |exports| ==> exports[e].InTable(table)
  {
    if n == 0 then 0 else ReferenceCount(exports, table, n - 1) + exports[n - 1].Lists(table).Count() + 1
  }

  ghost predicate SameCount(deps: Dependencies, exports: seq<ObjectExport>, table: seq<PackageIndex>, e: nat)
    requires e < |exports| && exports[e].InTable(table)
  {
    |DependenciesOf(deps, DepNode(Export(e), Create))| + |DependenciesOf(deps, DepNode(Export(e), Serialize))|
    == exports[e].Lists(table).Count() + 1
  }

  lemma {:induction false} CountsAgree(deps: Dependencies, exports: seq<ObjectExport>, table: seq<PackageIndex>, n: nat)
    requires n <= |exports| && (forall e :: 0 <= e < |exports| ==> exports[e].InTable(table))
    requires forall e :: 0 <= e < |exports| ==> SameCount(deps, exports, table, e)
    ensures DependencyCount(deps, n) == ReferenceCount(exports, table, n)
  {
    if n > 0 {
      CountsAgree(deps, exports, table, n - 1);
      assert SameCount(deps, exports, table, n - 1);
    }
  }

  lemma {:induction false} CountOfExport(deps: Dependencies, exports: seq<ObjectExport>, table: seq<PackageIndex>,
                                         e: nat)
    requires (forall f :: 0 <= f < |exports| ==> exports[f].InTable(table)) &&
             DependencyMap(deps, exports, table, |exports|)
    requires e < |exports|
    ensures SameCount(deps, exports, table, e)
  {
    CountOfLists(exports[e].Lists(table), e);
    CountOfOne(deps, exports, table, e, Create);
    CountOfOne(deps, exports, table, e, Serialize);
  }

  lemma {:induction false} CountOfLists(lists: ExportDependencies, e: nat)
    ensures |CommandDependencies(lists, e, Create)| + |CommandDependencies(lists, e, Serialize)| == lists.Count() + 1
  {
  }

  lemma {:induction false} CountOfOne(deps: Dependencies, exports: seq<ObjectExport>, table: seq<PackageIndex>, e: nat,
                                      command: Command)
    requires (forall f :: 0 <= f < |exports| ==> exports[f].InTable(table)) &&
             DependencyMap(deps, exports, table, |exports|)
    requires e < |exports|
    ensures DependenciesOf(deps, DepNode(Export(e), command))
      == CommandDependencies(exports[e].Lists(table), e, command)
  {
    assert DepNode(Export(e), command) in deps;
  }

  /** Everything that is written as 32-bit numbers can be counted in 31 bits. */
  ghost predicate SmallEnough(exports: seq<ObjectExport>, table: seq<PackageIndex>, ids: seq<nat>)
    requires forall e :: 0 <= e < |exports| ==> exports[e].InTable(table)
  {
    && IsI32(|ids|) && (forall p :: 0 <= p < |ids| ==> ids[p] < Range(8))
    && IsI32(2 * |exports|) && IsI32(ReferenceCount(exports, table, |exports|))
  }

  lemma {:induction false} OrderLength(order: seq<GraphNode>, public: seq<bool>)
    requires Distinct(order) && Flagged(order, public)
    ensures |order| <= 2 * |public|
  {
    var all := NodesOf(public, |public|);
    forall g | g in order ensures g in all {
      assert all[2 * g.exportIndex + if g.command.Create? then 0 else 1] == g;
    }
    DistinctFits(order, all);
  }

  /** Arcs to bundles that stand for different placeholders are no more than there are placeholders. */
  lemma {:induction false} ArcListLength(arcs: seq<seq<BundleArc>>, fixups: seq<ArcFixup>, sources: seq<Need>,
                                         importMap: seq<ImportSlot>, bundleOf: map<DepNode, nat>, seen: set<Need>,
                                         p: nat)
    requires LegacyArcsFor(arcs, fixups, sources, importMap, bundleOf, seen) && p < |arcs|
    ensures |arcs[p]| <= |fixups|
  {
    var froms := seq(|arcs[p]|, k requires 0 <= k < |arcs[p]| => arcs[p][k].from);
    forall k | 0 <= k < |arcs[p]| ensures NumberedArc(fixups, sources, bundleOf, p, arcs[p][k]) {
      assert arcs[p][k] in arcs[p];
    }
    var numbers: seq<int> := seq(|fixups|, i => i);
    forall f | f in froms ensures f in numbers {
      assert numbers[f] == f;
    }
    assert Distinct(froms);
    DistinctFits(froms, numbers);
  }

  lemma {:induction false} RecordCount(ids: seq<nat>, arcs: seq<seq<BundleArc>>, n: nat)
    requires n <= |ids| == |arcs|
    ensures |NonEmpty(ids, arcs, n)| <= n
  {
    if n > 0 {
      RecordCount(ids, arcs, n - 1);
    }
  }

  /** Arcs of the builder can be stored when everything is small enough. */
  lemma {:induction false} BuiltIsStorable(builder: ZenPackageBuilder, order: seq<GraphNode>, deps: Dependencies,
                                           n: nat, ids: seq<nat>)
    requires BuiltLegacy(builder, order, deps, n) && |ids| == |builder.legacyArcs| && IsI32(|ids|) &&
             IsI32(|builder.fixups|)
    requires (forall p :: 0 <= p < |ids| ==> ids[p] < Range(8)) && IsI32(|order|)
    ensures Storable(NonEmpty(ids, builder.legacyArcs, |ids|))
  {
    var data := NonEmpty(ids, builder.legacyArcs, |ids|);
    RecordCount(ids, builder.legacyArcs, |ids|);
    forall q | 0 <= q < |data| ensures data[q].id < Range(8) && IsI32(|data[q].arcs|) && ArcsStorable(data[q].arcs) {
      var p := PackageOf(ids, builder.legacyArcs, |ids|, data[q]);
      ArcListLength(builder.legacyArcs, builder.fixups, builder.sources, builder.importMap, BundleMap(order, |order|),
                    Needs(deps, n), p);
      forall a | a in data[q].arcs ensures IsI32(a.from) && IsI32(a.to) {
        ArcFits(builder, order, deps, n, p, a);
      }
    }
  }

  lemma {:induction false} ArcFits(builder: ZenPackageBuilder, order: seq<GraphNode>, deps: Dependencies, n: nat,
                                   p: nat, a: BundleArc)
    requires BuiltLegacy(builder, order, deps, n) && p < |builder.legacyArcs| && a in builder.legacyArcs[p]
    ensures 0 <= a.from < |builder.fixups| && 0 <= a.to <= |order|
  {
    assert NumberedArc(builder.fixups, builder.sources, BundleMap(order, |order|), p, a);
    var j := BundleOfCommand(order, builder.publicExports, builder.sources[a.from].1);
    BundleAtMost(order, j);
  }

  lemma {:induction false} BundleAtMost(order: seq<GraphNode>, j: nat)
    requires j <= |order|
    ensures BundleAt(order, j) <= j
  {
    if j > 0 {
      BundleAtMost(order, j - 1);
    }
  }

  /** The bundles and arcs of a package for a legacy container; fails exactly on circular dependencies. */
  method BuildLegacy(exports: seq<ObjectExport>, table: seq<PackageIndex>, info: PackageInfo)
    returns (deps: Dependencies, r: Result<ZenPackageBuilder>, ghost order: seq<GraphNode>)
    requires WellFormed(exports, table) && info.Fits(|exports|) && ImportsExist(exports, table, info.importMap)
    ensures DependencyMap(deps, exports, table, |exports|)
    ensures r.Success? <==> !Circular(deps)
    ensures r.Success? ==> IsLoadOrder(order, deps, info.public)
    ensures r.Success? ==>
      BuiltLegacy(r.value, order, deps, |exports|) && |r.value.fixups| <= DependencyCount(deps, |exports|)
    ensures r.Success? ==> r.value.importMap == info.importMap && r.value.importedPackages == info.importedPackages
    ensures r.Success? ==> r.value.publicExports == info.public
  {
    var sorted;
    deps, sorted := BuildLoadOrder(exports, table, info.public);
    order := [];
    if sorted.Failure? {
      return deps, Failure(sorted.error), order;
    }
    order := sorted.value;
    ReferencesExist(deps, exports, table, info.importMap);
    BundleMapDomain(order, |order|);
    var builder :=
      new ZenPackageBuilder(true, true, info.public, info.sizes, info.objectIndex, info.importMap,
                            info.importedPackages);
    var bundleOf := builder.CutBundles(sorted.value);
    builder.BuildArcs(deps, bundleOf, |exports|);
    r := Success(builder);
  }

  /**
   * A package from its exports and the flat table through a legacy container and back. This succeeds exactly when its
   * dependencies are not circular and each one on a converted package is on a command that the package publishes. Then
   * the rebuilt lists enforce every dependency between exports and every one on an export of a converted package, name
   * exactly the neighbours in the load order, and are free of cycles.
   */
  method ConvertThroughContainer(exports: seq<ObjectExport>, table: seq<PackageIndex>, info: PackageInfo,
                                 ids: seq<nat>, before: seq<byte>, imported: seq<Option<seq<PublicEntry>>>,
                                 loaded: map<nat, ImportedPackage>, ghost others: Others)
    returns (deps: Dependencies, r: Result<seq<ExportDependencies>>, ghost order: seq<GraphNode>)
    requires WellFormed(exports, table) && info.Fits(|exports|) && ImportsExist(exports, table, info.importMap)
    requires others.Publish(imported) && others.ids == ids && others.loaded == loaded && |ids| == info.importedPackages
    requires SmallEnough(exports, table, ids) && BundlesFit(imported)
    ensures DependencyMap(deps, exports, table, |exports|)
    ensures r.Success? <==> !Circular(deps) && AllFindable(imported, info.importMap, Needs(deps, |exports|))
    ensures r.Success? ==> |r.value| == |exports|
    ensures r.Success? ==> forall v, u :: v in deps && u in deps[v] && u.target.Export? ==> Forces(r.value, u, v)
    ensures r.Success? ==> ImportsForced(r.value, info.importMap, deps, |exports|, others)
    ensures r.Success? ==> LastsForced(r.value, info.importMap, deps, |exports|, others)
    ensures r.Success? ==> Ordered(order, info.public, |exports|, deps) && IsLoadOrder(order, deps, info.public)
    ensures r.Success? ==> ListsNeighbours(r.value, EntriesOf(order, |order|))
    ensures r.Success? ==> KeepsOrder(r.value, EntriesOf(order, |order|)) && Loadable(r.value)
  {
    var built;
    deps, built, order := BuildLegacy(exports, table, info);
    if built.Failure? {
      return deps, Failure(built.error), order;
    }
    forall e: nat | e < |exports| ensures SameCount(deps, exports, table, e) {
      CountOfExport(deps, exports, table, e);
    }
    CountsAgree(deps, exports, table, |exports|);
    OrderLength(order, info.public);
    BuiltIsStorable(built.value, order, deps, |exports|, ids);
    r := CarryThroughContainer(built.value, |exports|, ids, before, imported, loaded, order, deps, others);
    forall v | v in deps ensures v in EntriesOf(order, |order|) {
      CommandHasEntry(order, info.public, |exports|, deps, v);
    }
  }
}
