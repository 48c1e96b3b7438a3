/** Legacy dependencies to bundles and arcs and back: the conversion as a whole. */
module ArcRoundTrip {
  import opened Package
  import opened LoadOrder
  import opened ExportBundles
  import opened ArcDependencies
  import opened ArcMeaning
  import opened PreloadDependencies

  /** All import arcs of a package in one list. */
  method Flatten(arcs: seq<seq<ImportArc>>) returns (flat: seq<ImportArc>)
    ensures forall a :: a in flat <==> exists p :: 0 <= p < |arcs| && a in arcs[p]
  {
    flat := [];
    for p := 0 to |arcs|
      invariant forall a :: a in flat <==> exists q :: 0 <= q < p && a in arcs[q]
    {
      flat := flat + arcs[p];
    }
  }

  /** What the builder has produced from a load order. */
  ghost predicate BuiltFrom(headers: seq<BundleHeader>, bundleOf: map<DepNode, nat>, order: seq<GraphNode>,
                            sizes: seq<nat>)
  {
    && (forall n :: n in order ==> n.exportIndex < |sizes|)
    && CutUpTo(headers, order, sizes, |order|)
    && bundleOf == BundleMap(order, |order|)
  }

  /** The position and bundle of a command that has a bundle. */
  lemma {:induction false} BundleOfCommand(order: seq<GraphNode>, public: seq<bool>, v: DepNode) returns (j: nat)
    requires Distinct(order) && Flagged(order, public)
    requires v in BundleMap(order, |order|)
    ensures j < |order| && NodeOf(order[j]) == v && EntriesOf(order, |order|)[j] == v
    ensures BundleMap(order, |order|)[v] == BundleAt(order, j)
  {
    BundleMapDomain(order, |order|);
    j :| 0 <= j < |order| && EntriesOf(order, |order|)[j] == v;
    BundleMapAt(order, public, |order|, j);
  }

  /** Every bundle number handed out is that of a header. */
  lemma {:induction false} BundleInRange(headers: seq<BundleHeader>, order: seq<GraphNode>, sizes: seq<nat>,
                                         public: seq<bool>, v: DepNode)
    requires Distinct(order) && Flagged(order, public)
    requires BuiltFrom(headers, BundleMap(order, |order|), order, sizes)
    requires v in BundleMap(order, |order|)
    ensures BundleMap(order, |order|)[v] < |headers|
  {
    var j := BundleOfCommand(order, public, v);
    assert InBundle(headers, order, j);
  }

  lemma {:induction false} InternalArcForward(headers: seq<BundleHeader>, order: seq<GraphNode>, sizes: seq<nat>,
                                              public: seq<bool>, n: nat, deps: Dependencies, arcs: seq<BundleArc>,
                                              a: BundleArc)
    requires Ordered(order, public, n, deps) && BuiltFrom(headers, BundleMap(order, |order|), order, sizes)
    requires InternalArcsFor(arcs, BundleMap(order, |order|), Needs(deps, n)) && a in arcs
    ensures 0 <= a.from < a.to < |headers|
  {
    var bundleOf := BundleMap(order, |order|);
    var need :| need in Needs(deps, n) && MakesInternalArc(bundleOf, need, a);
    var j := BundleOfCommand(order, public, need.1);
    DependencyComesFirst(order, public, n, deps, need.0, need.1, j);
    var i :| 0 <= i < j && EntriesOf(order, |order|)[i] == need.0;
    BundleMapAt(order, public, |order|, i);
    BundleAtMonotone(order, i, j);
    assert InBundle(headers, order, j);
  }

  lemma {:induction false} InternalArcsCover(order: seq<GraphNode>, public: seq<bool>, n: nat, deps: Dependencies,
                                             arcs: seq<BundleArc>, i: nat, j: nat)
    requires Ordered(order, public, n, deps)
    requires InternalArcsFor(arcs, BundleMap(order, |order|), Needs(deps, n))
    requires i < j < |order| && BundleAt(order, i) != BundleAt(order, j)
    requires NodeOf(order[i]) in DependenciesOf(deps, NodeOf(order[j]))
    ensures BundleArc(BundleAt(order, i), BundleAt(order, j)) in arcs
  {
    var u, v := NodeOf(order[i]), NodeOf(order[j]);
    assert order[j] in order;
    BundleMapAt(order, public, |order|, i);
    BundleMapAt(order, public, |order|, j);
    assert (u, v) in Needs(deps, n);
    assert MakesInternalArc(BundleMap(order, |order|), (u, v), BundleArc(BundleAt(order, i), BundleAt(order, j)));
  }

  lemma {:induction false} ImportArcsCover(order: seq<GraphNode>, public: seq<bool>, n: nat, deps: Dependencies,
                                           importMap: seq<ImportSlot>, arcs: seq<seq<ImportArc>>, j: nat, u: DepNode)
    requires Ordered(order, public, n, deps)
    requires ImportArcsFor(arcs, importMap, BundleMap(order, |order|), Needs(deps, n))
    requires j < |order| && u in DependenciesOf(deps, NodeOf(order[j])) && OnSomePackage(importMap, u)
    requires importMap[u.target.importIndex].importedPackage < |arcs|
    ensures ImportArc(u.target.importIndex, u.command, BundleAt(order, j))
      in arcs[importMap[u.target.importIndex].importedPackage]
  {
    var v, p := NodeOf(order[j]), importMap[u.target.importIndex].importedPackage;
    assert order[j] in order;
    BundleMapAt(order, public, |order|, j);
    assert (u, v) in Needs(deps, n);
    var a := ImportArc(u.target.importIndex, u.command, BundleAt(order, j));
    assert MakesImportArc(importMap, BundleMap(order, |order|), (u, v), p, a);
  }

  /** What a conversion needs to know besides the exports: sizes, hashes and the import map. */
  datatype PackageInfo = PackageInfo(
    public: seq<bool>,
    sizes: seq<nat>,
    objectIndex: seq<nat>,
    importMap: seq<ImportSlot>,
    importedPackages: nat,
    importPosition: map<nat, nat>)
  {
    ghost predicate Fits(exportCount: nat) {
      && |public| == |sizes| == |objectIndex| == exportCount
      && (forall i ::
          0 <= i < |importMap| && importMap[i].PackageImport? ==> importMap[i].importedPackage < importedPackages)
      && (forall i :: 0 <= i < |importMap| && importMap[i].PackageImport? ==> i in importPosition)
    }
  }

  /** Imports named in dependencies exist in the import map. */
  ghost predicate ImportsExist(exports: seq<ObjectExport>, table: seq<PackageIndex>, importMap: seq<ImportSlot>) {
    forall e, from, to, x ::
      0 <= e < |exports| && exports[e].InTable(table) && x in exports[e].Lists(table).List(from, to) && x.Import? ==>
      x.importIndex < |importMap|
  }

  /** The bundles and arcs of a package whose dependencies have a load order. */
  method BuildBundles(order: seq<GraphNode>, deps: Dependencies, exportCount: nat, info: PackageInfo,
                      legacyContainer: bool)
    returns (z: ArcData)
    requires Ordered(order, info.public, exportCount, deps) && info.Fits(exportCount)
    requires forall v, u :: v in deps && u in deps[v] && u.target.Export? ==> u.target.exportIndex < exportCount
    requires forall v, u :: v in deps && u in deps[v] && u.target.Import? ==> u.target.importIndex < |info.importMap|
    ensures Bundled(z, order, info.sizes) && z.exportCount == exportCount && z.legacyContainer == legacyContainer
    ensures z.importPosition == info.importPosition && (legacyContainer ==> z.internalArcs == [])
    ensures CoversBundles(z, order, deps)
    ensures !legacyContainer ==> CoversImports(z, order, deps, info.importMap)
  {
    var builder :=
      new ZenPackageBuilder(legacyContainer, false, info.public, info.sizes, info.objectIndex, info.importMap,
                            info.importedPackages);
    var bundleOf := builder.CutBundles(order);
    BundleMapDomain(order, |order|);
    builder.BuildArcs(deps, bundleOf, exportCount);
    InternalArcsForward(builder.headers, order, info, exportCount, deps, builder.internalArcs);
    var importArcs := Flatten(builder.importArcs);
    ImportArcsValid(builder.headers, order, info, exportCount, deps, builder.importArcs, legacyContainer);
    // A legacy container does not store internal arcs.
    z := ArcData(exportCount, builder.headers, builder.entries, if legacyContainer then [] else builder.internalArcs,
                 importArcs, legacyContainer, [], [], info.importPosition);
    ArcDataValid(z, order, info.public, info.sizes, exportCount, deps);
    if !legacyContainer {
      ArcsCoverBundles(z, order, info.public, deps);
      ArcsCoverImports(z, order, info, deps, builder.importArcs);
    }
  }

  lemma {:induction false} InternalArcsForward(headers: seq<BundleHeader>, order: seq<GraphNode>, info: PackageInfo,
                                               n: nat, deps: Dependencies, arcs: seq<BundleArc>)
    requires Ordered(order, info.public, n, deps) && BuiltFrom(headers, BundleMap(order, |order|), order, info.sizes)
    requires InternalArcsFor(arcs, BundleMap(order, |order|), Needs(deps, n))
    ensures forall a :: a in arcs ==> 0 <= a.from < a.to < |headers|
  {
    forall a | a in arcs ensures 0 <= a.from < a.to < |headers| {
      InternalArcForward(headers, order, info.sizes, info.public, n, deps, arcs, a);
    }
  }

  lemma {:induction false} ArcsCoverBundles(z: ArcData, order: seq<GraphNode>, public: seq<bool>, deps: Dependencies)
    requires Ordered(order, public, z.exportCount, deps)
    requires InternalArcsFor(z.internalArcs, BundleMap(order, |order|), Needs(deps, z.exportCount))
    ensures CoversBundles(z, order, deps)
  {
    forall i, j | 0 <= i < j < |order| && BundleAt(order, i) != BundleAt(order, j) &&
      NodeOf(order[i]) in DependenciesOf(deps, NodeOf(order[j]))
      ensures BundleArc(BundleAt(order, i), BundleAt(order, j)) in z.internalArcs
    {
      InternalArcsCover(order, public, z.exportCount, deps, z.internalArcs, i, j);
    }
  }

  lemma {:induction false} ArcsCoverImports(z: ArcData, order: seq<GraphNode>, info: PackageInfo, deps: Dependencies,
                                            arcs: seq<seq<ImportArc>>)
    requires Ordered(order, info.public, z.exportCount, deps) && info.Fits(z.exportCount)
    requires ImportArcsFor(arcs, info.importMap, BundleMap(order, |order|), Needs(deps, z.exportCount))
    requires |arcs| == info.importedPackages
    requires forall p, a :: 0 <= p < |arcs| && a in arcs[p] ==> a in z.importArcs
    ensures CoversImports(z, order, deps, info.importMap)
  {
    forall j, u | 0 <= j < |order| && u in DependenciesOf(deps, NodeOf(order[j])) && OnSomePackage(info.importMap, u)
      ensures ImportArc(u.target.importIndex, u.command, BundleAt(order, j)) in z.importArcs
    {
      ImportArcsCover(order, info.public, z.exportCount, deps, info.importMap, arcs, j, u);
    }
  }

  lemma {:induction false} ImportArcsValid(headers: seq<BundleHeader>, order: seq<GraphNode>, info: PackageInfo,
                                           n: nat, deps: Dependencies, arcs: seq<seq<ImportArc>>, legacyContainer: bool)
    requires Ordered(order, info.public, n, deps) && info.Fits(n)
    requires BuiltFrom(headers, BundleMap(order, |order|), order, info.sizes)
    requires if legacyContainer then arcs == seq(info.importedPackages, _ => [])
             else ImportArcsFor(arcs, info.importMap, BundleMap(order, |order|), Needs(deps, n))
    ensures forall p, a :: 0 <= p < |arcs| && a in arcs[p] ==> a.to < |headers| && a.fromImport in info.importPosition
  {
    if !legacyContainer {
      forall p, a | 0 <= p < |arcs| && a in arcs[p] ensures a.to < |headers| && a.fromImport in info.importPosition {
        var need :| need in Needs(deps, n) && MakesImportArc(info.importMap, BundleMap(order, |order|), need, p, a);
        BundleInRange(headers, order, info.sizes, info.public, need.1);
      }
    }
  }

  lemma {:induction false} EntriesInRange(headers: seq<BundleHeader>, entries: seq<DepNode>, order: seq<GraphNode>,
                                          public: seq<bool>, sizes: seq<nat>, n: nat, deps: Dependencies)
    requires Ordered(order, public, n, deps) && BuiltFrom(headers, BundleMap(order, |order|), order, sizes) &&
             entries == EntriesOf(order, |order|)
    ensures forall b :: 0 <= b < |headers| ==> headers[b].entryCount > 0 && headers[b].End() <= |entries|
    ensures forall e :: e in entries ==> e.target.Export? && e.target.exportIndex < n
  {
    forall b | 0 <= b < |headers| ensures headers[b].entryCount > 0 && headers[b].End() <= |entries| {
      assert TileAt(headers, b);
      TilesEnd(headers, |order|, b);
    }
    forall e | e in entries ensures e.target.Export? && e.target.exportIndex < n {
      var i :| 0 <= i < |order| && entries[i] == e;
      assert order[i] in order && NodeOf(order[i]) == e;
    }
  }

  lemma {:induction false} ArcDataValid(z: ArcData, order: seq<GraphNode>, public: seq<bool>, sizes: seq<nat>, n: nat,
                                        deps: Dependencies)
    requires Ordered(order, public, n, deps) && z.exportCount == n
    requires BuiltFrom(z.headers, BundleMap(order, |order|), order, sizes) && z.entries == EntriesOf(order, |order|)
    requires forall a :: a in z.internalArcs ==> 0 <= a.from < |z.headers| && a.to < |z.headers|
    requires forall a :: a in z.importArcs ==> a.to < |z.headers| && a.fromImport in z.importPosition
    requires z.legacyArcs == [] && z.imported == []
    ensures z.Valid()
  {
    EntriesInRange(z.headers, z.entries, order, public, sizes, n, deps);
  }

  /**
   * A legacy package taken to bundles and arcs and back. The conversion fails exactly when the dependencies are
   * circular. Otherwise every dependency between exports, and in newer containers every dependency on an export of
   * another package, is enforced by the rebuilt lists, which keep the load order and so are free of cycles. In a legacy
   * container they name exactly the neighbours in the load order.
   */
  method ConvertAndRebuild(exports: seq<ObjectExport>, table: seq<PackageIndex>, info: PackageInfo,
                           legacyContainer: bool)
    returns (deps: Dependencies, r: Result<seq<ExportDependencies>>, ghost order: seq<GraphNode>)
    requires WellFormed(exports, table) && info.Fits(|exports|) && ImportsExist(exports, table, info.importMap)
    ensures DependencyMap(deps, exports, table, |exports|)
    ensures r.Success? <==> !Circular(deps)
    ensures r.Success? ==> Ordered(order, info.public, |exports|, deps) && IsLoadOrder(order, deps, info.public)
    ensures r.Success? ==> |r.value| == |exports|
    ensures r.Success? ==> forall v, u :: v in deps && u in deps[v] && u.target.Export? ==> Forces(r.value, u, v)
    ensures r.Success? && !legacyContainer ==> forall v, u ::
      v in deps && u in deps[v] && OnSomePackage(info.importMap, u) ==>
      Forces(r.value, DepNode(Import(info.importPosition[u.target.importIndex]), u.command), v)
    ensures r.Success? ==> KeepsOrder(r.value, EntriesOf(order, |order|)) && Loadable(r.value)
    ensures r.Success? && legacyContainer ==> ListsNeighbours(r.value, EntriesOf(order, |order|))
  {
    var sorted;
    deps, sorted := BuildLoadOrder(exports, table, info.public);
    if sorted.Failure? {
      return deps, Failure(sorted.error), [];
    }
    order := sorted.value;
    ReferencesExist(deps, exports, table, info.importMap);
    var z := BuildBundles(sorted.value, deps, |exports|, info, legacyContainer);
    forall u, v | z.Link(u, v) ensures !BadSelfLink(u, v) {
      NoBadSelfLink(z, order, info.sizes, info.public, |exports|, deps, u, v);
    }
    r := ResolveArcs(z);
    forall v, u | v in deps && u in deps[v] && u.target.Export? ensures Forces(r.value, u, v) {
      CommandHasEntry(order, info.public, |exports|, deps, v);
      ExportDependencyForced(z, r.value, order, info.sizes, info.public, deps, u, v);
    }
    if !legacyContainer {
      forall v, u | v in deps && u in deps[v] && OnSomePackage(info.importMap, u)
        ensures Forces(r.value, DepNode(Import(info.importPosition[u.target.importIndex]), u.command), v)
      {
        CommandHasEntry(order, info.public, |exports|, deps, v);
        ImportDependencyForced(z, r.value, order, info.sizes, deps, info.importMap, u, v);
      }
    }
    RebuiltIsAcyclic(z, r.value, order, info.sizes, info.public, deps);
    if legacyContainer {
      LegacyListsNeighbours(z, r.value, order, info.sizes);
    }
  }

  lemma {:induction false} CommandHasEntry(order: seq<GraphNode>, public: seq<bool>, n: nat, deps: Dependencies,
                                           v: DepNode)
    requires Ordered(order, public, n, deps) && v.target.Export? && v.target.exportIndex < n
    ensures v in EntriesOf(order, |order|)
  {
    assert v == DepNode(Export(v.target.exportIndex), v.command);
  }

  lemma {:induction false} ReferencesExist(deps: Dependencies, exports: seq<ObjectExport>, table: seq<PackageIndex>,
                                           importMap: seq<ImportSlot>)
    requires WellFormed(exports, table) && ImportsExist(exports, table, importMap)
    requires DependencyMap(deps, exports, table, |exports|)
    ensures forall v, u :: v in deps && u in deps[v] && u.target.Export? ==> u.target.exportIndex < |exports|
    ensures forall v, u :: v in deps && u in deps[v] && u.target.Import? ==> u.target.importIndex < |importMap|
  {
    forall v, u | v in deps && u in deps[v]
      ensures u.target.Export? ==> u.target.exportIndex < |exports|
      ensures u.target.Import? ==> u.target.importIndex < |importMap|
    {
      ReferenceExists(deps, exports, table, importMap, v, u);
    }
  }

  lemma {:induction false} ReferenceExists(deps: Dependencies, exports: seq<ObjectExport>, table: seq<PackageIndex>,
                                           importMap: seq<ImportSlot>, v: DepNode, u: DepNode)
    requires WellFormed(exports, table) && ImportsExist(exports, table, importMap)
    requires DependencyMap(deps, exports, table, |exports|) && v in deps && u in deps[v]
    ensures u.target.Export? ==> u.target.exportIndex < |exports|
    ensures u.target.Import? ==> u.target.importIndex < |importMap|
  {
    var e := v.target.exportIndex;
    if u != DepNode(Export(e), Create) {
      assert u.target in exports[e].Lists(table).List(u.command, v.command);
    }
  }
}
