/**
 * Export bundles of packages before container version NoExportInfo: cutting the load order into bundles,
 * compressing dependencies to arcs between bundles, and rebuilding dependencies from them.
 */
module ExportBundles {
  import opened Package
  import opened LoadOrder

  /** `FExportBundleHeader`. */
  datatype BundleHeader = BundleHeader(serialOffset: nat, firstEntry: nat, entryCount: nat) {
    function End(): nat { firstEntry + entryCount }
    predicate Holds(i: nat) { firstEntry <= i < End() }
  }

  /** `FInternalDependencyArc`: also the form of the legacy arcs between bundles of two packages. */
  datatype BundleArc = BundleArc(from: int, to: nat)

  /** `FExternalDependencyArc`. */
  datatype ImportArc = ImportArc(fromImport: nat, fromCommand: Command, to: nat)

  /** An entry of the zen import map: only imports of another package's exports give rise to arcs. */
  datatype ImportSlot = OtherImport | PackageImport(objectIndex: nat, importedPackage: nat)

  /** `ZenLegacyPackageExternalArcFixupData`: what the arc written with placeholder `id` stands for. */
  datatype ArcFixup = ArcFixup(id: nat, importedPackage: nat, objectIndex: nat, command: Command)

  /** `ZenLegacyPackageExportBundleMapping`: the bundle of a command of a public export. */
  datatype PublicEntry = PublicEntry(objectIndex: nat, command: Command, bundle: nat)

  function NodeOf(n: GraphNode): DepNode {
    DepNode(Export(n.exportIndex), n.command)
  }

  // ---- Where the load order is cut ----

  /** Number of bundles closed before position `i`: a bundle ends at each command of a public export. */
  ghost function BundleAt(order: seq<GraphNode>, i: nat): nat
    requires i <= |order|
  {
    if i == 0 then 0 else BundleAt(order, i - 1) + if order[i - 1].isPublic then 1 else 0
  }

  /** Bytes of export data that the first `i` commands place. */
  ghost function DataBefore(order: seq<GraphNode>, sizes: seq<nat>, i: nat): nat
    requires i <= |order|
    requires forall n :: n in order ==> n.exportIndex < |sizes|
  {
    if i == 0 then 0
    else DataBefore(order, sizes, i - 1) + if order[i - 1].command.Serialize?
      then sizes[order[i - 1].exportIndex] else 0
  }

  /** Where bundle `b` has to start for the bundles to be consecutive. */
  ghost function StartOf(headers: seq<BundleHeader>, b: nat): nat
    requires b <= |headers|
  {
    if b == 0 then 0 else headers[b - 1].End()
  }

  ghost predicate TileAt(headers: seq<BundleHeader>, b: nat)
    requires b < |headers|
  {
    headers[b].entryCount > 0 && headers[b].firstEntry == StartOf(headers, b)
  }

  /** The headers cut `n` entries into consecutive non-empty bundles. */
  ghost predicate Tiles(headers: seq<BundleHeader>, n: nat) {
    (forall b :: 0 <= b < |headers| ==> TileAt(headers, b)) && n == StartOf(headers, |headers|)
  }

  /** Command `i` lies in the bundle that the public exports before it determine. */
  ghost predicate InBundle(headers: seq<BundleHeader>, order: seq<GraphNode>, i: nat)
    requires i < |order|
  {
    BundleAt(order, i) < |headers| && headers[BundleAt(order, i)].Holds(i)
  }

  /** The first `k` commands lie in the bundles that the public exports before them determine. */
  ghost predicate CutUpTo(headers: seq<BundleHeader>, order: seq<GraphNode>, sizes: seq<nat>, k: nat)
    requires k <= |order|
    requires forall n :: n in order ==> n.exportIndex < |sizes|
  {
    && Tiles(headers, k)
    && (forall i :: 0 <= i < k ==> InBundle(headers, order, i))
    && (forall b :: 0 <= b < |headers| ==> StartsAt(headers[b], order, sizes))
  }

  /** The bundle's data starts where the data of all earlier commands ends. */
  ghost predicate StartsAt(header: BundleHeader, order: seq<GraphNode>, sizes: seq<nat>)
    requires forall n :: n in order ==> n.exportIndex < |sizes|
  {
    && header.firstEntry <= |order|
    && header.serialOffset == DataBefore(order, sizes, header.firstEntry)
  }

  /** Number of bundles that exist after `k` commands when one is still open. */
  ghost predicate BundleCount(headers: seq<BundleHeader>, order: seq<GraphNode>, k: nat, open: bool)
    requires k <= |order|
  {
    BundleAt(order, k) == if open then |headers| - 1 else |headers|
  }

  /** The headers after one more entry, which opens a bundle at `offset` unless one is open. */
  function WithEntry(headers: seq<BundleHeader>, open: bool, offset: nat, entryIndex: nat): seq<BundleHeader>
    requires open ==> headers != []
  {
    if open then
      var last := headers[|headers| - 1];
      headers[..|headers| - 1] + [last.(entryCount := last.entryCount + 1)]
    else
      headers + [BundleHeader(offset, entryIndex, 1)]
  }

  lemma {:induction false} WithEntryTiles(headers: seq<BundleHeader>, open: bool, offset: nat, k: nat)
    requires Tiles(headers, k) && (open ==> headers != [])
    ensures Tiles(WithEntry(headers, open, offset, k), k + 1)
  {
    var next := WithEntry(headers, open, offset, k);
    forall b | 0 <= b < |next| ensures TileAt(next, b) {
      if b < |headers| {
        assert TileAt(headers, b);
      }
    }
  }

  lemma {:induction false} WithEntryKeepsCut(headers: seq<BundleHeader>, order: seq<GraphNode>, sizes: seq<nat>,
                                             k: nat, open: bool)
    requires k < |order|
    requires forall n :: n in order ==> n.exportIndex < |sizes|
    requires CutUpTo(headers, order, sizes, k) && BundleCount(headers, order, k, open) && (open ==> headers != [])
    ensures CutUpTo(WithEntry(headers, open, DataBefore(order, sizes, k), k), order, sizes, k + 1)
    ensures BundleCount(WithEntry(headers, open, DataBefore(order, sizes, k), k), order, k + 1, !order[k].isPublic)
  {
    var next := WithEntry(headers, open, DataBefore(order, sizes, k), k);
    WithEntryTiles(headers, open, DataBefore(order, sizes, k), k);
    assert next[BundleAt(order, k)].Holds(k);
    forall i | 0 <= i < k + 1 ensures InBundle(next, order, i) {
      if i < k {
        assert InBundle(headers, order, i);
      }
    }
    forall b | 0 <= b < |next| ensures StartsAt(next[b], order, sizes) {
      if b < |headers| {
        assert StartsAt(headers[b], order, sizes);
      }
    }
  }

  /** A public command is the last of its bundle, and the last of a bundle before the last one is public. */
  ghost predicate EndsAtPublic(headers: seq<BundleHeader>, order: seq<GraphNode>, b: nat)
    requires b < |headers| && headers[b].entryCount > 0 && headers[b].End() <= |order|
  {
    && (forall i :: headers[b].firstEntry <= i < headers[b].End() - 1 ==> !order[i].isPublic)
    && (b < |headers| - 1 ==> order[headers[b].End() - 1].isPublic)
  }

  /** A position belongs to one bundle only. */
  lemma {:induction false} TilesDisjoint(headers: seq<BundleHeader>, n: nat, b: nat, c: nat)
    requires Tiles(headers, n) && b < c < |headers|
    ensures headers[b].End() <= headers[c].firstEntry
  {
    assert TileAt(headers, c);
    if b + 1 < c {
      TilesDisjoint(headers, n, b, c - 1);
      assert TileAt(headers, c - 1);
    }
  }

  lemma {:induction false} TilesEnd(headers: seq<BundleHeader>, n: nat, b: nat)
    requires Tiles(headers, n) && b < |headers|
    ensures headers[b].End() <= n
  {
    if b < |headers| - 1 {
      TilesDisjoint(headers, n, b, |headers| - 1);
      assert TileAt(headers, |headers| - 1);
    }
  }

  /** Command `i` of bundle `b`: that many bundles were closed before it. */
  lemma {:induction false} BundleOfEntry(headers: seq<BundleHeader>, order: seq<GraphNode>, sizes: seq<nat>, b: nat,
                                         i: nat)
    requires forall n :: n in order ==> n.exportIndex < |sizes|
    requires CutUpTo(headers, order, sizes, |order|) && b < |headers| && headers[b].Holds(i)
    ensures i < |order| && BundleAt(order, i) == b
  {
    TilesEnd(headers, |order|, b);
    assert InBundle(headers, order, i);
    var c := BundleAt(order, i);
    if c < b {
      TilesDisjoint(headers, |order|, c, b);
    } else if b < c {
      TilesDisjoint(headers, |order|, b, c);
    }
  }

  /** Bundles end at public exports and nowhere else. */
  lemma {:induction false} CutAtPublic(headers: seq<BundleHeader>, order: seq<GraphNode>, sizes: seq<nat>, b: nat)
    requires forall n :: n in order ==> n.exportIndex < |sizes|
    requires CutUpTo(headers, order, sizes, |order|) && b < |headers|
    ensures headers[b].entryCount > 0 && headers[b].End() <= |order| && EndsAtPublic(headers, order, b)
  {
    assert TileAt(headers, b);
    TilesEnd(headers, |order|, b);
    forall i | headers[b].firstEntry <= i < headers[b].End() - 1 ensures !order[i].isPublic {
      BundleOfEntry(headers, order, sizes, b, i);
      BundleOfEntry(headers, order, sizes, b, i + 1);
    }
    if b < |headers| - 1 {
      var last := headers[b].End() - 1;
      assert TileAt(headers, b + 1) && StartOf(headers, b + 1) == last + 1;
      BundleOfEntry(headers, order, sizes, b, last);
      BundleOfEntry(headers, order, sizes, b + 1, last + 1);
    }
  }

  /** The graph nodes carry the flag of their export. */
  ghost predicate Flagged(order: seq<GraphNode>, public: seq<bool>) {
    forall n :: n in order ==> n.exportIndex < |public| && n.isPublic == public[n.exportIndex]
  }

  ghost function EntriesOf(order: seq<GraphNode>, k: nat): (r: seq<DepNode>)
    requires k <= |order|
    ensures |r| == k && forall i :: 0 <= i < k ==> r[i] == NodeOf(order[i])
  {
    if k == 0 then [] else EntriesOf(order, k - 1) + [NodeOf(order[k - 1])]
  }

  /** `export_to_bundle_map` for the first `k` commands. */
  ghost function BundleMap(order: seq<GraphNode>, k: nat): map<DepNode, nat>
    requires k <= |order|
  {
    if k == 0 then map[] else BundleMap(order, k - 1)[NodeOf(order[k - 1]) := BundleAt(order, k - 1)]
  }

  lemma {:induction false} BundleMapDomain(order: seq<GraphNode>, k: nat)
    requires k <= |order|
    ensures forall v :: v in BundleMap(order, k) <==> v in EntriesOf(order, k)
  {
    if k > 0 {
      BundleMapDomain(order, k - 1);
    }
  }

  lemma {:induction false} BundleMapAt(order: seq<GraphNode>, public: seq<bool>, k: nat, i: nat)
    requires i < k <= |order| && Distinct(order) && Flagged(order, public)
    ensures NodeOf(order[i]) in BundleMap(order, k)
    ensures BundleMap(order, k)[NodeOf(order[i])] == BundleAt(order, i)
  {
    if i < k - 1 {
      BundleMapAt(order, public, k - 1, i);
      assert order[i] in order && order[k - 1] in order && order[i] != order[k - 1];
    }
  }

  /** The public commands among the first `i`, with the bundle each of them closes. */
  ghost function PublicEntriesOf(order: seq<GraphNode>, objectIndex: seq<nat>, i: nat): seq<PublicEntry>
    requires i <= |order|
    requires forall n :: n in order ==> n.exportIndex < |objectIndex|
  {
    if i == 0 then []
    else
      var n := order[i - 1];
      PublicEntriesOf(order, objectIndex, i - 1) +
      if n.isPublic then [PublicEntry(objectIndex[n.exportIndex], n.command, BundleAt(order, i - 1))] else []
  }

  // ---- Which dependencies give rise to which arcs ----

  type Dependencies = map<DepNode, seq<DepNode>>

  function DependenciesOf(deps: Dependencies, v: DepNode): seq<DepNode> {
    if v in deps then deps[v] else []
  }

  /** A pair of a dependency and the command that has it. */
  type Need = (DepNode, DepNode)

  ghost predicate MakesInternalArc(bundleOf: map<DepNode, nat>, need: Need, a: BundleArc) {
    && need.0.target.Export? && need.0 in bundleOf && need.1 in bundleOf
    && bundleOf[need.0] != bundleOf[need.1]
    && a == BundleArc(bundleOf[need.0], bundleOf[need.1])
  }

  /** The dependency is on an export of the imported package number `p`. */
  ghost predicate OnPackage(importMap: seq<ImportSlot>, u: DepNode, p: nat) {
    OnSomePackage(importMap, u) && importMap[u.target.importIndex].importedPackage == p
  }

  predicate OnSomePackage(importMap: seq<ImportSlot>, u: DepNode) {
    u.target.Import? && u.target.importIndex < |importMap| && importMap[u.target.importIndex].PackageImport?
  }

  ghost predicate MakesImportArc(importMap: seq<ImportSlot>, bundleOf: map<DepNode, nat>, need: Need, p: nat,
                                 a: ImportArc)
  {
    && OnPackage(importMap, need.0, p) && need.1 in bundleOf
    && a == ImportArc(need.0.target.importIndex, need.0.command, bundleOf[need.1])
  }

  ghost predicate MakesPlaceholderArc(importMap: seq<ImportSlot>, bundleOf: map<DepNode, nat>, need: Need, p: nat,
                                      a: BundleArc)
  {
    OnPackage(importMap, need.0, p) && need.1 in bundleOf && a == BundleArc(-1, bundleOf[need.1])
  }

  /** The dependencies of one command, and of all commands of the first `n` exports. */
  ghost function NeedsOf(deps: Dependencies, v: DepNode): set<Need> {
    set u | u in DependenciesOf(deps, v) :: (u, v)
  }

  ghost function Needs(deps: Dependencies, n: nat): set<Need> {
    set v, u | v in deps && u in deps[v] && v.target.Export? && v.target.exportIndex < n :: (u, v)
  }

  lemma {:induction false} NeedsStep(deps: Dependencies, n: nat)
    ensures Needs(deps, n + 1) ==
            Needs(deps, n) + NeedsOf(deps, DepNode(Export(n), Create)) + NeedsOf(deps, DepNode(Export(n), Serialize))
  {
    var next := Needs(deps, n) + NeedsOf(deps, DepNode(Export(n), Create))
      + NeedsOf(deps, DepNode(Export(n), Serialize));
    forall v: DepNode, u: DepNode ensures (u, v) in Needs(deps, n + 1) <==> (u, v) in next {
      if v.target == Export(n) {
        match v.command {
          case Create => assert v == DepNode(Export(n), Create);
          case Serialize => assert v == DepNode(Export(n), Serialize);
        }
      }
    }
  }

  /** Number of dependencies of the first `n` exports. */
  ghost function DependencyCount(deps: Dependencies, n: nat): nat {
    if n == 0 then 0
    else DependencyCount(deps, n - 1)
         + |DependenciesOf(deps, DepNode(Export(n - 1), Create))|
           + |DependenciesOf(deps, DepNode(Export(n - 1), Serialize))|
  }

  /** The internal arcs are those of the needs seen so far, each listed once. */
  ghost predicate InternalArcsFor(arcs: seq<BundleArc>, bundleOf: map<DepNode, nat>, seen: set<Need>) {
    && Distinct(arcs)
    && (forall a :: a in arcs ==> exists need :: need in seen && MakesInternalArc(bundleOf, need, a))
    && (forall need, a :: need in seen && MakesInternalArc(bundleOf, need, a) ==> a in arcs)
  }

  ghost predicate ImportArcsFor(arcs: seq<seq<ImportArc>>, importMap: seq<ImportSlot>, bundleOf: map<DepNode, nat>,
                                seen: set<Need>)
  {
    && (forall p :: 0 <= p < |arcs| ==> Distinct(arcs[p]))
    && (forall p, a ::
        0 <= p < |arcs| && a in arcs[p] ==> exists need ::
        need in seen && MakesImportArc(importMap, bundleOf, need, p, a))
    && (forall need, p, a ::
        need in seen && 0 <= p < |arcs| && MakesImportArc(importMap, bundleOf, need, p, a) ==> a in arcs[p])
  }

  function FixupOf(importMap: seq<ImportSlot>, u: DepNode, id: nat): ArcFixup
    requires OnSomePackage(importMap, u)
  {
    var slot := importMap[u.target.importIndex];
    ArcFixup(id, slot.importedPackage, slot.objectIndex, u.command)
  }

  /**
   * Legacy arcs with placeholders: number `id` was handed out for the need `sources[id]`, its record says so,
   * and its arc is listed with the imported package; every need on another package got a number.
   */
  ghost predicate LegacyArcsFor(arcs: seq<seq<BundleArc>>, fixups: seq<ArcFixup>, sources: seq<Need>,
                                importMap: seq<ImportSlot>, bundleOf: map<DepNode, nat>, seen: set<Need>)
  {
    && |sources| == |fixups|
    && (forall id ::
        0 <= id < |sources| ==> Numbered(arcs, fixups, sources, importMap, bundleOf, id) && sources[id] in seen)
    && (forall p, a :: 0 <= p < |arcs| && a in arcs[p] ==> NumberedArc(fixups, sources, bundleOf, p, a))
    && (forall p :: 0 <= p < |arcs| ==> Distinct(arcs[p]))
    && (forall need :: need in seen && OnSomePackage(importMap, need.0) ==> need in sources)
  }

  ghost predicate Numbered(arcs: seq<seq<BundleArc>>, fixups: seq<ArcFixup>, sources: seq<Need>,
                           importMap: seq<ImportSlot>, bundleOf: map<DepNode, nat>, id: nat)
    requires id < |sources| == |fixups|
  {
    && OnSomePackage(importMap, sources[id].0) && sources[id].1 in bundleOf
    && fixups[id] == FixupOf(importMap, sources[id].0, id)
    && fixups[id].importedPackage < |arcs|
    && BundleArc(id, bundleOf[sources[id].1]) in arcs[fixups[id].importedPackage]
  }

  ghost predicate NumberedArc(fixups: seq<ArcFixup>, sources: seq<Need>, bundleOf: map<DepNode, nat>, p: nat,
                              a: BundleArc)
    requires |sources| == |fixups|
  {
    && 0 <= a.from < |fixups| && fixups[a.from].importedPackage == p
    && sources[a.from].1 in bundleOf && a.to == bundleOf[sources[a.from].1]
  }

  ghost predicate PlaceholderArcsFor(arcs: seq<seq<BundleArc>>, importMap: seq<ImportSlot>,
                                     bundleOf: map<DepNode, nat>, seen: set<Need>)
  {
    && (forall p :: 0 <= p < |arcs| ==> Distinct(arcs[p]))
    && (forall p, a ::
        0 <= p < |arcs| && a in arcs[p] ==> exists need ::
        need in seen && MakesPlaceholderArc(importMap, bundleOf, need, p, a))
    && (forall need, p, a ::
        need in seen && 0 <= p < |arcs| && MakesPlaceholderArc(importMap, bundleOf, need, p, a) ==> a in arcs[p])
  }

  /** Every dependency is on a command that has a bundle or on an entry of the import map. */
  ghost predicate Resolvable(deps: Dependencies, bundleOf: map<DepNode, nat>, importMap: seq<ImportSlot>) {
    forall v, u :: v in deps && u in deps[v] ==>
      && (u.target.Export? ==> u in bundleOf)
      && (u.target.Import? ==> u.target.importIndex < |importMap|)
  }

  /** The part of `ZenPackageBuilder` that dependency bundles are built in. */
  class ZenPackageBuilder {
    const legacyContainer: bool       // container version Initial or older
    const fixupArcs: bool
    const publicExports: seq<bool>    // whether each export is public
    const exportSizes: seq<nat>       // cooked serial size of each export
    const objectIndex: seq<nat>       // public export hash of each export, read as a global import index
    const importMap: seq<ImportSlot>
    const importedPackages: nat

    var headers: seq<BundleHeader>
    var entries: seq<DepNode>
    var publicEntries: seq<PublicEntry>
    var internalArcs: seq<BundleArc>
    var importArcs: seq<seq<ImportArc>>
    var legacyArcs: seq<seq<BundleArc>>
    var fixups: seq<ArcFixup>
    var arcCounter: nat
    ghost var sources: seq<Need>      // which need each placeholder number stands for

    constructor (legacyContainer: bool, fixupArcs: bool, publicExports: seq<bool>, exportSizes: seq<nat>,
                 objectIndex: seq<nat>, importMap: seq<ImportSlot>, importedPackages: nat)
      ensures this.legacyContainer == legacyContainer && this.fixupArcs == fixupArcs
      ensures this.publicExports == publicExports && this.exportSizes == exportSizes && this.objectIndex == objectIndex
      ensures this.importMap == importMap && this.importedPackages == importedPackages
      ensures headers == [] && entries == [] && publicEntries == [] && internalArcs == []
      ensures importArcs == [] && legacyArcs == [] && fixups == [] && arcCounter == 0 && sources == []
    {
      this.legacyContainer, this.fixupArcs := legacyContainer, fixupArcs;
      this.publicExports, this.exportSizes, this.objectIndex := publicExports, exportSizes, objectIndex;
      this.importMap, this.importedPackages := importMap, importedPackages;
      headers, entries, publicEntries, internalArcs := [], [], [], [];
      importArcs, legacyArcs, fixups, arcCounter := [], [], [], 0;
      sources := [];
    }

    /** Adding one command to the running bundle, opening one if there is none. */
    method AddEntry(current: Option<nat>, offset: nat, entry: DepNode) returns (bundle: nat)
      requires current.Some? ==> headers != [] && current.value == |headers| - 1
      modifies `headers, `entries
      ensures headers == WithEntry(old(headers), current.Some?, offset, |old(entries)|)
      ensures entries == old(entries) + [entry]
      ensures bundle == |headers| - 1
    {
      if current.Some? {
        bundle := current.value;
      } else {
        bundle := |headers|;
        headers := headers + [BundleHeader(offset, |entries|, 0)];
      }
      entries := entries + [entry];
      headers := headers[bundle := headers[bundle].(entryCount := headers[bundle].entryCount + 1)];
    }

    /** First half of `build_zen_dependency_bundles_legacy`: bundles end at public exports. */
    method CutBundles(order: seq<GraphNode>) returns (bundleOf: map<DepNode, nat>)
      requires headers == [] && entries == [] && publicEntries == []
      requires forall n :: n in order ==> n.exportIndex < |exportSizes| && n.exportIndex < |objectIndex|
      requires Flagged(order, publicExports)
      modifies `headers, `entries, `publicEntries
      ensures CutUpTo(headers, order, exportSizes, |order|)
      ensures forall b :: 0 <= b < |headers| ==>
        headers[b].entryCount > 0 && headers[b].End() <= |order| && EndsAtPublic(headers, order, b)
      ensures entries == EntriesOf(order, |order|)
      ensures bundleOf == BundleMap(order, |order|)
      ensures publicEntries == if legacyContainer && fixupArcs then PublicEntriesOf(order, objectIndex, |order|) else []
    {
      var current: Option<nat> := None;
      var offset: nat := 0;
      bundleOf := map[];
      for k := 0 to |order|
        invariant current.Some? ==> headers != [] && current.value == |headers| - 1
        invariant CutUpTo(headers, order, exportSizes, k) && BundleCount(headers, order, k, current.Some?)
        invariant entries == EntriesOf(order, k) && bundleOf == BundleMap(order, k)
        invariant offset == DataBefore(order, exportSizes, k)
        invariant publicEntries == if legacyContainer && fixupArcs then PublicEntriesOf(order, objectIndex, k) else []
      {
        current, offset, bundleOf := PlaceCommand(order, k, current, offset, bundleOf);
      }
      forall b | 0 <= b < |headers|
        ensures headers[b].entryCount > 0 && headers[b].End() <= |order| && EndsAtPublic(headers, order, b)
      {
        CutAtPublic(headers, order, exportSizes, b);
      }
    }

    /** One step of cutting: command `k` of the load order. */
    method PlaceCommand(order: seq<GraphNode>, k: nat, current: Option<nat>, offset: nat, bundleOf: map<DepNode, nat>)
      returns (current': Option<nat>, offset': nat, bundleOf': map<DepNode, nat>)
      requires k < |order| && Flagged(order, publicExports)
      requires forall n :: n in order ==> n.exportIndex < |exportSizes| && n.exportIndex < |objectIndex|
      requires current.Some? ==> headers != [] && current.value == |headers| - 1
      requires CutUpTo(headers, order, exportSizes, k) && BundleCount(headers, order, k, current.Some?)
      requires entries == EntriesOf(order, k) && bundleOf == BundleMap(order, k)
      requires offset == DataBefore(order, exportSizes, k)
      requires publicEntries == if legacyContainer && fixupArcs then PublicEntriesOf(order, objectIndex, k) else []
      modifies `headers, `entries, `publicEntries
      ensures current'.Some? ==> headers != [] && current'.value == |headers| - 1
      ensures CutUpTo(headers, order, exportSizes, k + 1) && BundleCount(headers, order, k + 1, current'.Some?)
      ensures entries == EntriesOf(order, k + 1) && bundleOf' == BundleMap(order, k + 1)
      ensures offset' == DataBefore(order, exportSizes, k + 1)
      ensures publicEntries == if legacyContainer && fixupArcs then PublicEntriesOf(order, objectIndex, k + 1) else []
    {
      var n := order[k];
      assert n in order;
      var bundle := PlaceEntry(order, k, current, offset);
      bundleOf' := bundleOf[NodeOf(n) := bundle];
      offset' := offset;
      if n.command.Serialize? {
        offset' := offset + exportSizes[n.exportIndex];
      }
      var isPublic := RecordPublic(order, k, bundle);
      current' := if isPublic then None else Some(bundle);
    }

    /** Command `k` in its bundle. */
    method PlaceEntry(order: seq<GraphNode>, k: nat, current: Option<nat>, offset: nat) returns (bundle: nat)
      requires k < |order| && forall n :: n in order ==> n.exportIndex < |exportSizes|
      requires current.Some? ==> headers != [] && current.value == |headers| - 1
      requires CutUpTo(headers, order, exportSizes, k) && BundleCount(headers, order, k, current.Some?)
      requires entries == EntriesOf(order, k) && offset == DataBefore(order, exportSizes, k)
      modifies `headers, `entries
      ensures CutUpTo(headers, order, exportSizes, k + 1) && BundleCount(headers, order, k + 1, !order[k].isPublic)
      ensures entries == EntriesOf(order, k + 1) && bundle == BundleAt(order, k) == |headers| - 1
    {
      WithEntryKeepsCut(headers, order, exportSizes, k, current.Some?);
      bundle := AddEntry(current, offset, NodeOf(order[k]));
    }

    /** The bundle of a public command is kept for packages that depend on it. */
    method RecordPublic(order: seq<GraphNode>, k: nat, bundle: nat) returns (isPublic: bool)
      requires k < |order| && Flagged(order, publicExports) && bundle == BundleAt(order, k)
      requires forall n :: n in order ==> n.exportIndex < |objectIndex|
      requires publicEntries == if legacyContainer && fixupArcs then PublicEntriesOf(order, objectIndex, k) else []
      modifies `publicEntries
      ensures isPublic == order[k].isPublic
      ensures publicEntries == if legacyContainer && fixupArcs then PublicEntriesOf(order, objectIndex, k + 1) else []
    {
      var n := order[k];
      assert n in order;
      isPublic := publicExports[n.exportIndex];
      if isPublic && fixupArcs && legacyContainer {
        publicEntries := publicEntries + [PublicEntry(objectIndex[n.exportIndex], n.command, bundle)];
      }
    }

    /** Placeholder numbers are handed out once each. */
    ghost predicate ArcsValid()
      reads this
    {
      && |importArcs| == importedPackages && |legacyArcs| == importedPackages
      && arcCounter == |fixups|
      && (forall i :: 0 <= i < |fixups| ==> fixups[i].id == i)
      && (forall i ::
          0 <= i < |importMap| && importMap[i].PackageImport? ==> importMap[i].importedPackage < importedPackages)
      && (forall p, a :: 0 <= p < |legacyArcs| && a in legacyArcs[p] ==> a.from < |fixups|)
    }

    /** The arcs built so far are exactly those of the needs in `seen`. */
    ghost predicate ArcsMatch(bundleOf: map<DepNode, nat>, seen: set<Need>)
      reads this
    {
      && InternalArcsFor(internalArcs, bundleOf, seen)
      && (if legacyContainer then importArcs == seq(importedPackages, _ => [])
          else ImportArcsFor(importArcs, importMap, bundleOf, seen))
      && (if !legacyContainer then legacyArcs == seq(importedPackages, _ => []) && fixups == []
          else if fixupArcs then LegacyArcsFor(legacyArcs, fixups, sources, importMap, bundleOf, seen)
          else PlaceholderArcsFor(legacyArcs, importMap, bundleOf, seen) && fixups == [])
    }

    /** An arc from another bundle of this package, unless it is there already. */
    method AddInternalArc(need: Need, bundleOf: map<DepNode, nat>, ghost seen: set<Need>)
      requires InternalArcsFor(internalArcs, bundleOf, seen)
      requires need.0.target.Export? && need.0 in bundleOf && need.1 in bundleOf
      modifies `internalArcs
      ensures InternalArcsFor(internalArcs, bundleOf, seen + {need})
    {
      var from, to := bundleOf[need.0], bundleOf[need.1];
      if from != to && BundleArc(from, to) !in internalArcs {
        internalArcs := internalArcs + [BundleArc(from, to)];
      }
    }

    /** An arc from an import, kept with the package it comes from. */
    method AddImportArc(need: Need, bundleOf: map<DepNode, nat>, ghost seen: set<Need>)
      requires ImportArcsFor(importArcs, importMap, bundleOf, seen)
      requires need.1 in bundleOf && OnSomePackage(importMap, need.0)
      requires importMap[need.0.target.importIndex].importedPackage < |importArcs|
      modifies `importArcs
      ensures |importArcs| == |old(importArcs)|
      ensures ImportArcsFor(importArcs, importMap, bundleOf, seen + {need})
    {
      var p := importMap[need.0.target.importIndex].importedPackage;
      var arc := ImportArc(need.0.target.importIndex, need.0.command, bundleOf[need.1]);
      if arc !in importArcs[p] {
        importArcs := importArcs[p := importArcs[p] + [arc]];
      }
    }

    /** A legacy arc: its source bundle is unknown here, so a placeholder number or -1 stands in for it. */
    method AddLegacyArc(need: Need, bundleOf: map<DepNode, nat>, ghost seen: set<Need>)
      requires legacyContainer && ArcsValid()
      requires if fixupArcs then LegacyArcsFor(legacyArcs, fixups, sources, importMap, bundleOf, seen)
               else PlaceholderArcsFor(legacyArcs, importMap, bundleOf, seen) && fixups == []
      requires need.1 in bundleOf && OnSomePackage(importMap, need.0)
      modifies `legacyArcs, `fixups, `arcCounter, `sources
      ensures ArcsValid() && |fixups| <= |old(fixups)| + 1
      ensures if fixupArcs then LegacyArcsFor(legacyArcs, fixups, sources, importMap, bundleOf, seen + {need})
              else PlaceholderArcsFor(legacyArcs, importMap, bundleOf, seen + {need}) && fixups == []
    {
      var i := need.0.target.importIndex;
      var p, to := importMap[i].importedPackage, bundleOf[need.1];
      var from: int := -1;
      if fixupArcs {
        from := arcCounter;
        fixups := fixups + [ArcFixup(arcCounter, p, importMap[i].objectIndex, need.0.command)];
        arcCounter := arcCounter + 1;
        sources := sources + [need];
      }
      if BundleArc(from, to) !in legacyArcs[p] {
        legacyArcs := legacyArcs[p := legacyArcs[p] + [BundleArc(from, to)]];
      }
    }

    /** `create_dependency_arc_from_node` for the dependency `need.0` of the command `need.1`. */
    method AddArc(need: Need, bundleOf: map<DepNode, nat>, ghost seen: set<Need>)
      requires ArcsValid() && ArcsMatch(bundleOf, seen)
      requires need.1 in bundleOf
      requires need.0.target.Export? ==> need.0 in bundleOf
      requires need.0.target.Import? ==> need.0.target.importIndex < |importMap|
      modifies `internalArcs, `importArcs, `legacyArcs, `fixups, `arcCounter, `sources
      ensures ArcsValid() && ArcsMatch(bundleOf, seen + {need}) && |fixups| <= |old(fixups)| + 1
    {
      if need.0.target.Export? {
        AddInternalArc(need, bundleOf, seen);
      }
      assert InternalArcsFor(internalArcs, bundleOf, seen + {need});
      if need.0.target.Import? && importMap[need.0.target.importIndex].PackageImport? {
        if !legacyContainer {
          AddImportArc(need, bundleOf, seen);
        } else {
          AddLegacyArc(need, bundleOf, seen);
        }
      }
    }

    /** The arcs of all dependencies of one command. */
    method AddArcsOf(v: DepNode, deps: Dependencies, bundleOf: map<DepNode, nat>, ghost seen: set<Need>)
      requires ArcsValid() && ArcsMatch(bundleOf, seen)
      requires v in bundleOf && Resolvable(deps, bundleOf, importMap)
      modifies `internalArcs, `importArcs, `legacyArcs, `fixups, `arcCounter, `sources
      ensures ArcsValid() && ArcsMatch(bundleOf, seen + NeedsOf(deps, v))
      ensures |fixups| <= |old(fixups)| + |DependenciesOf(deps, v)|
    {
      var all := DependenciesOf(deps, v);
      ghost var done: set<Need> := {};
      for i := 0 to |all|
        invariant ArcsValid() && ArcsMatch(bundleOf, seen + done) && |fixups| <= |old(fixups)| + i
        invariant done == set u | u in all[..i] :: (u, v)
      {
        AddArc((all[i], v), bundleOf, seen + done);
        assert seen + done + {(all[i], v)} == seen + (done + {(all[i], v)});
        assert all[..i + 1] == all[..i] + [all[i]];
        done := done + {(all[i], v)};
      }
      assert all[..|all|] == all;
      assert done == NeedsOf(deps, v);
    }

    /** Second half of `build_zen_dependency_bundles_legacy`: the arcs of every command of every export. */
    method BuildArcs(deps: Dependencies, bundleOf: map<DepNode, nat>, exportCount: nat)
      requires internalArcs == [] && importArcs == [] && legacyArcs == [] && fixups == [] && arcCounter == 0 &&
               sources == []
      requires forall i ::
        0 <= i < |importMap| && importMap[i].PackageImport? ==> importMap[i].importedPackage < importedPackages
      requires Resolvable(deps, bundleOf, importMap)
      requires forall e, c :: 0 <= e < exportCount ==> DepNode(Export(e), c) in bundleOf
      modifies `internalArcs, `importArcs, `legacyArcs, `fixups, `arcCounter, `sources
      ensures ArcsValid() && ArcsMatch(bundleOf, Needs(deps, exportCount)) &&
              |fixups| <= DependencyCount(deps, exportCount)
    {
      importArcs := seq(importedPackages, _ => []);
      legacyArcs := seq(importedPackages, _ => []);
      ghost var seen := Needs(deps, 0);
      for e := 0 to exportCount
        invariant ArcsValid() && ArcsMatch(bundleOf, seen)
        invariant seen == Needs(deps, e) && |fixups| <= DependencyCount(deps, e)
      {
        var create, serialize := DepNode(Export(e), Create), DepNode(Export(e), Serialize);
        AddArcsOf(create, deps, bundleOf, seen);
        AddArcsOf(serialize, deps, bundleOf, seen + NeedsOf(deps, create));
        NeedsStep(deps, e);
        seen := seen + NeedsOf(deps, create) + NeedsOf(deps, serialize);
      }
    }
  }
}
