/** The arcs between bundles say as much as the dependencies they were built from, and nothing that is wrong. */
module ArcMeaning {
  import opened Package
  import opened LoadOrder
  import opened ExportBundles
  import opened ArcDependencies

  /** A load order of all commands of `n` exports that respects the dependencies. */
  ghost predicate Ordered(order: seq<GraphNode>, public: seq<bool>, n: nat, deps: Dependencies) {
    && Distinct(order) && Flagged(order, public)
    && (forall g :: g in order ==> g.exportIndex < n)
    && (forall e, c :: 0 <= e < n ==> DepNode(Export(e), c) in EntriesOf(order, |order|))
    && (forall j, u :: 0 <= j < |order| && u in DependenciesOf(deps, NodeOf(order[j])) && u.target.Export? ==>
          u in EntriesOf(order, |order|)[..j])
    && (forall e :: 0 <= e < n ==> DepNode(Export(e), Create) in DependenciesOf(deps, DepNode(Export(e), Serialize)))
  }

  /** `z` holds the bundles cut from `order`, and its internal arcs lead forward. */
  ghost predicate Bundled(z: ArcData, order: seq<GraphNode>, sizes: seq<nat>) {
    && z.Valid() && z.entries == EntriesOf(order, |order|)
    && (forall n :: n in order ==> n.exportIndex < |sizes|)
    && CutUpTo(z.headers, order, sizes, |order|)
    && (forall a :: a in z.internalArcs ==> a.from < a.to)
  }

  /** `all` is what `ResolveArcs` makes of `z`. */
  ghost predicate Resolved(z: ArcData, all: seq<ExportDependencies>)
    requires z.Valid()
  {
    && |all| == z.exportCount
    && (forall u, v :: Listed(all, u, v) <==> z.Link(u, v) && u.target != v.target)
  }

  lemma {:induction false} BundleAtMonotone(order: seq<GraphNode>, i: nat, j: nat)
    requires i <= j <= |order|
    ensures BundleAt(order, i) <= BundleAt(order, j)
  {
    if i < j {
      BundleAtMonotone(order, i, j - 1);
    }
  }

  ghost predicate At(entries: seq<DepNode>, i: nat, u: DepNode) {
    i < |entries| && entries[i] == u
  }

  ghost predicate Earlier(entries: seq<DepNode>, u: DepNode, v: DepNode) {
    exists i, j :: 0 <= i < j && At(entries, i, u) && At(entries, j, v)
  }

  ghost predicate NextTo(entries: seq<DepNode>, u: DepNode, v: DepNode) {
    exists i, j :: 0 <= i < j && j == i + 1 && At(entries, i, u) && At(entries, j, v)
  }

  lemma {:induction false} BundleLinkForward(z: ArcData, b: nat, u: DepNode, v: DepNode)
    requires z.Valid() && b < |z.headers| && z.LinkInBundle(b, u, v)
    ensures Earlier(z.entries, u, v)
  {
    var i, j :| z.headers[b].firstEntry <= i < j < z.headers[b].End() && j == i + 1 && u == z.entries[i] &&
      v == z.entries[j];
    assert At(z.entries, i, u) && At(z.entries, j, v);
  }

  lemma {:induction false} ArcLinkForward(z: ArcData, n: nat, a: BundleArc, u: DepNode, v: DepNode)
    requires z.Valid() && Tiles(z.headers, n) && 0 <= a.from < a.to < |z.headers| && z.LinkByArc(a, u, v)
    ensures Earlier(z.entries, u, v)
  {
    TilesDisjoint(z.headers, n, a.from, a.to);
    var i, j := z.headers[a.from].End() - 1, z.headers[a.to].firstEntry;
    assert At(z.entries, i, u) && At(z.entries, j, v);
  }

  /** Every link between exports leads from an earlier entry to a later one. */
  lemma {:induction false} LinksGoForward(z: ArcData, order: seq<GraphNode>, sizes: seq<nat>, u: DepNode, v: DepNode)
    requires Bundled(z, order, sizes) && z.Link(u, v) && u.target.Export?
    ensures Earlier(z.entries, u, v)
  {
    if b :| 0 <= b < |z.headers| && z.LinkInBundle(b, u, v) {
      BundleLinkForward(z, b, u, v);
    } else {
      var a :| z.IsArc(a) && z.LinkByArc(a, u, v);
      ArcLinkForward(z, |order|, a, u, v);
    }
  }

  lemma {:induction false} EntriesDistinct(order: seq<GraphNode>, public: seq<bool>, n: nat, deps: Dependencies)
    requires Ordered(order, public, n, deps)
    ensures Distinct(EntriesOf(order, |order|))
  {
    var entries := EntriesOf(order, |order|);
    forall i, j | 0 <= i < j < |entries| ensures entries[i] != entries[j] {
      assert order[i] in order && order[j] in order && order[i] != order[j];
    }
  }

  /** The order between two entries that `Ordered` demands, read off their positions. */
  lemma {:induction false} DependencyComesFirst(order: seq<GraphNode>, public: seq<bool>, n: nat, deps: Dependencies,
                                                u: DepNode, v: DepNode, j: nat)
    requires Ordered(order, public, n, deps) && u in DependenciesOf(deps, v) && u.target.Export?
    requires j < |order| && EntriesOf(order, |order|)[j] == v
    ensures exists i :: 0 <= i < j && EntriesOf(order, |order|)[i] == u
  {
    var entries := EntriesOf(order, |order|);
    assert NodeOf(order[j]) == v;
    assert u in entries[..j];
    var i :| 0 <= i < |entries[..j]| && entries[..j][i] == u;
    assert entries[i] == u;
  }

  /** No link makes an export wait for itself the wrong way round, so the rebuild cannot fail. */
  lemma {:induction false} NoBadSelfLink(z: ArcData, order: seq<GraphNode>, sizes: seq<nat>, public: seq<bool>, n: nat,
                                         deps: Dependencies, u: DepNode, v: DepNode)
    requires Bundled(z, order, sizes) && Ordered(order, public, n, deps) && z.Link(u, v)
    ensures !BadSelfLink(u, v)
  {
    if u.target == v.target && u.target.Export? {
      LinksGoForward(z, order, sizes, u, v);
      var i, j :| 0 <= i < j && At(z.entries, i, u) && At(z.entries, j, v);
      EntriesDistinct(order, public, n, deps);
      if !(u.command.Create? && v.command.Serialize?) {
        assert u != v && u.command.Serialize? && v.command.Create?;
        assert v in DependenciesOf(deps, u) by {
          assert order[i] in order && NodeOf(order[i]) == u;
        }
        DependencyComesFirst(order, public, n, deps, v, u, i);
        assert false;
      }
    } else if u.target == v.target {
      LinkTargetIsExport(z, u, v);
    }
  }

  lemma {:induction false} LinkTargetIsExport(z: ArcData, u: DepNode, v: DepNode)
    requires z.Valid() && z.Link(u, v)
    ensures v.target.Export? && v.target.exportIndex < z.exportCount
  {
    assert v in z.entries;
  }

  // ---- Every dependency is still there ----

  lemma {:induction false} LinkIsWaiting(z: ArcData, all: seq<ExportDependencies>, u: DepNode, v: DepNode)
    requires z.Valid() && Resolved(z, all) && z.Link(u, v) && !BadSelfLink(u, v)
    ensures Forces(all, u, v)
  {
    LinkTargetIsExport(z, u, v);
    assert WaitsOn(all, u, v);
    ForcesStep(all, u, v);
  }

  /** The rebuilt dependencies list all links, none of which is bad. */
  ghost predicate Rebuilt(z: ArcData, all: seq<ExportDependencies>) {
    && z.Valid() && Resolved(z, all)
    && (forall u, v :: z.Link(u, v) ==> !BadSelfLink(u, v))
  }

  lemma {:induction false} NeighboursForced(z: ArcData, all: seq<ExportDependencies>, b: nat, i: nat)
    requires Rebuilt(z, all) && b < |z.headers|
    requires z.headers[b].firstEntry <= i < i + 1 < z.headers[b].End()
    ensures Forces(all, z.entries[i], z.entries[i + 1])
  {
    assert z.LinkInBundle(b, z.entries[i], z.entries[i + 1]);
    LinkIsWaiting(z, all, z.entries[i], z.entries[i + 1]);
  }

  /** Within a bundle an entry is loaded before every later one. */
  lemma {:induction false} ChainInBundle(z: ArcData, all: seq<ExportDependencies>, b: nat, i: nat, j: nat)
    requires Rebuilt(z, all) && b < |z.headers|
    requires z.headers[b].firstEntry <= i < j < z.headers[b].End()
    ensures Forces(all, z.entries[i], z.entries[j])
  {
    NeighboursForced(z, all, b, j - 1);
    if i < j - 1 {
      ChainInBundle(z, all, b, i, j - 1);
      ForcesTransitive(all, z.entries[i], z.entries[j - 1], z.entries[j]);
    }
  }

  /** What a bundle's first entry waits for precedes every entry of the bundle. */
  lemma {:induction false} LinkReaches(z: ArcData, all: seq<ExportDependencies>, u: DepNode, b: nat, j: nat)
    requires Rebuilt(z, all) && b < |z.headers| && z.headers[b].Holds(j)
    requires z.Link(u, z.First(b))
    ensures Forces(all, u, z.entries[j])
  {
    var first := z.headers[b].firstEntry;
    LinkIsWaiting(z, all, u, z.entries[first]);
    if first < j {
      ChainInBundle(z, all, b, first, j);
      ForcesTransitive(all, u, z.entries[first], z.entries[j]);
    }
  }

  /** The last entry of an arc's first bundle precedes every entry of its second. */
  lemma {:induction false} ArcReaches(z: ArcData, all: seq<ExportDependencies>, a: BundleArc, j: nat)
    requires Rebuilt(z, all) && z.IsArc(a) && z.headers[a.to].Holds(j)
    ensures Forces(all, z.entries[z.headers[a.from].End() - 1], z.entries[j])
  {
    var u := z.entries[z.headers[a.from].End() - 1];
    assert z.LinkByArc(a, u, z.First(a.to));
    LinkReaches(z, all, u, a.to, j);
  }

  /** An arc makes every entry of the first bundle precede every entry of the second. */
  lemma {:induction false} ChainAcrossArc(z: ArcData, all: seq<ExportDependencies>, a: BundleArc, i: nat, j: nat)
    requires Rebuilt(z, all) && z.IsArc(a)
    requires z.headers[a.from].Holds(i) && z.headers[a.to].Holds(j)
    ensures Forces(all, z.entries[i], z.entries[j])
  {
    var last := z.headers[a.from].End() - 1;
    ArcReaches(z, all, a, j);
    if i < last {
      ChainInBundle(z, all, a.from, i, last);
      ForcesTransitive(all, z.entries[i], z.entries[last], z.entries[j]);
    }
  }

  /** In a legacy container the arcs from bundle to bundle order all bundles. */
  lemma {:induction false} ChainAcrossLegacy(z: ArcData, all: seq<ExportDependencies>, b: nat, c: nat, i: nat, j: nat)
    requires Rebuilt(z, all) && z.legacyContainer && b < c < |z.headers|
    requires z.headers[b].Holds(i) && z.headers[c].Holds(j)
    ensures Forces(all, z.entries[i], z.entries[j])
    decreases c
  {
    assert z.IsArc(BundleArc(c - 1, c));
    if b == c - 1 {
      ChainAcrossArc(z, all, BundleArc(c - 1, c), i, j);
    } else {
      var k := z.headers[c - 1].firstEntry;
      ChainAcrossLegacy(z, all, b, c - 1, i, k);
      ChainAcrossArc(z, all, BundleArc(c - 1, c), k, j);
      ForcesTransitive(all, z.entries[i], z.entries[k], z.entries[j]);
    }
  }

  /** The arcs cover the dependencies between bundles, unless the container is legacy and orders all of them. */
  ghost predicate CoversBundles(z: ArcData, order: seq<GraphNode>, deps: Dependencies) {
    || z.legacyContainer
    || forall i, j ::
         && 0 <= i < j < |order| && BundleAt(order, i) != BundleAt(order, j)
         && NodeOf(order[i]) in DependenciesOf(deps, NodeOf(order[j]))
         ==> BundleArc(BundleAt(order, i), BundleAt(order, j)) in z.internalArcs
  }

  /** The arcs from imports cover the dependencies on exports of other packages. */
  ghost predicate CoversImports(z: ArcData, order: seq<GraphNode>, deps: Dependencies, importMap: seq<ImportSlot>) {
    forall j, u :: 0 <= j < |order| && u in DependenciesOf(deps, NodeOf(order[j])) && OnSomePackage(importMap, u) ==>
      ImportArc(u.target.importIndex, u.command, BundleAt(order, j)) in z.importArcs
  }

  /** A dependency between exports survives as a chain of rebuilt dependencies. */
  lemma {:induction false} ExportDependencyForced(z: ArcData, all: seq<ExportDependencies>, order: seq<GraphNode>,
                                                  sizes: seq<nat>, public: seq<bool>, deps: Dependencies, u: DepNode,
                                                  v: DepNode)
    requires Bundled(z, order, sizes) && Ordered(order, public, z.exportCount, deps) && Rebuilt(z, all)
    requires CoversBundles(z, order, deps)
    requires v in z.entries && u in DependenciesOf(deps, v) && u.target.Export?
    ensures Forces(all, u, v)
  {
    var j :| 0 <= j < |z.entries| && z.entries[j] == v;
    DependencyComesFirst(order, public, z.exportCount, deps, u, v, j);
    var i :| 0 <= i < j && z.entries[i] == u;
    var b, c := BundleAt(order, i), BundleAt(order, j);
    BundleAtMonotone(order, i, j);
    assert InBundle(z.headers, order, i) && InBundle(z.headers, order, j);
    if b == c {
      ChainInBundle(z, all, b, i, j);
    } else if z.legacyContainer {
      ChainAcrossLegacy(z, all, b, c, i, j);
    } else {
      assert NodeOf(order[i]) == u && NodeOf(order[j]) == v;
      ChainAcrossArc(z, all, BundleArc(b, c), i, j);
    }
  }

  /** A dependency on an export of another package survives as a chain from the import's final position. */
  lemma {:induction false} ImportDependencyForced(z: ArcData, all: seq<ExportDependencies>, order: seq<GraphNode>,
                                                  sizes: seq<nat>, deps: Dependencies, importMap: seq<ImportSlot>,
                                                  u: DepNode, v: DepNode)
    requires Bundled(z, order, sizes) && Rebuilt(z, all) && CoversImports(z, order, deps, importMap)
    requires v in z.entries && u in DependenciesOf(deps, v) && OnSomePackage(importMap, u)
    requires u.target.importIndex in z.importPosition
    ensures Forces(all, DepNode(Import(z.importPosition[u.target.importIndex]), u.command), v)
  {
    var j :| 0 <= j < |z.entries| && z.entries[j] == v;
    var b := BundleAt(order, j);
    assert NodeOf(order[j]) == v;
    var a := ImportArc(u.target.importIndex, u.command, b);
    assert a in z.importArcs;
    assert InBundle(z.headers, order, j);
    var from, first := z.ImportLink(a).0, z.headers[b].firstEntry;
    assert z.LinkByImport(a, from, z.entries[first]);
    LinkReaches(z, all, from, b, j);
  }

  lemma {:induction false} EarlierTransitive(entries: seq<DepNode>, u: DepNode, v: DepNode, w: DepNode)
    requires Distinct(entries) && Earlier(entries, u, v) && Earlier(entries, v, w)
    ensures Earlier(entries, u, w)
  {
    var i, j :| 0 <= i < j && At(entries, i, u) && At(entries, j, v);
    var k, l :| 0 <= k < l && At(entries, k, v) && At(entries, l, w);
    assert j == k;
  }

  /** One rebuilt dependency between exports leads from an earlier entry to a later one. */
  lemma {:induction false} StepGoesForward(z: ArcData, all: seq<ExportDependencies>, order: seq<GraphNode>,
                                           sizes: seq<nat>, public: seq<bool>, deps: Dependencies, u: DepNode,
                                           v: DepNode)
    requires Bundled(z, order, sizes) && Ordered(order, public, z.exportCount, deps) && Resolved(z, all)
    requires WaitsOn(all, u, v) && u.target.Export?
    ensures Earlier(z.entries, u, v)
  {
    if Listed(all, u, v) {
      LinksGoForward(z, order, sizes, u, v);
    } else {
      assert v in z.entries;
      var j :| 0 <= j < |z.entries| && z.entries[j] == v;
      DependencyComesFirst(order, public, z.exportCount, deps, u, v, j);
      var i :| 0 <= i < j && z.entries[i] == u;
      assert At(z.entries, i, u) && At(z.entries, j, v);
    }
  }

  /** Every dependency between exports that the lists name leads from an earlier entry to a later one. */
  ghost predicate KeepsOrder(all: seq<ExportDependencies>, entries: seq<DepNode>) {
    forall u, v :: WaitsOn(all, u, v) && u.target.Export? ==> Earlier(entries, u, v)
  }

  /** Chains between exports then never lead backwards. */
  lemma {:induction false} ChainGoesForward(all: seq<ExportDependencies>, entries: seq<DepNode>, p: seq<DepNode>)
    requires KeepsOrder(all, entries) && Distinct(entries)
    requires |p| >= 2 && Chain(all, p) && p[0].target.Export?
    ensures Earlier(entries, p[0], p[|p| - 1])
    decreases |p|
  {
    assert WaitsOn(all, p[0], p[1]);
    if |p| > 2 {
      ChainGoesForward(all, entries, p[1..]);
      EarlierTransitive(entries, p[0], p[1], p[|p| - 1]);
    }
  }

  /** No command of an export has to be loaded before itself. */
  ghost predicate Loadable(all: seq<ExportDependencies>) {
    forall u: DepNode :: u.target.Export? ==> !Forces(all, u, u)
  }

  lemma {:induction false} OrderIsLoadable(all: seq<ExportDependencies>, entries: seq<DepNode>)
    requires KeepsOrder(all, entries) && Distinct(entries)
    ensures Loadable(all)
  {
    forall u: DepNode | u.target.Export? && Forces(all, u, u) ensures false {
      var p :| ChainBetween(all, p, u, u);
      ChainGoesForward(all, entries, p);
    }
  }

  /** So the rebuilt dependencies have no cycle. */
  lemma {:induction false} RebuiltIsAcyclic(z: ArcData, all: seq<ExportDependencies>, order: seq<GraphNode>,
                                            sizes: seq<nat>, public: seq<bool>, deps: Dependencies)
    requires Bundled(z, order, sizes) && Ordered(order, public, z.exportCount, deps) && Resolved(z, all)
    ensures KeepsOrder(all, z.entries) && Loadable(all)
  {
    forall u, v | WaitsOn(all, u, v) && u.target.Export? ensures Earlier(z.entries, u, v) {
      StepGoesForward(z, all, order, sizes, public, deps, u, v);
    }
    EntriesDistinct(order, public, z.exportCount, deps);
    OrderIsLoadable(all, z.entries);
  }

  // ---- Legacy containers ----

  /** The lists name exactly the neighbours in the load order, where these are two exports. */
  ghost predicate ListsNeighbours(all: seq<ExportDependencies>, entries: seq<DepNode>) {
    forall u: DepNode, v: DepNode ::
      u.target.Export? ==> (Listed(all, u, v) <==> NextTo(entries, u, v) && u.target != v.target)
  }

  lemma {:induction false} LinkIsNext(z: ArcData, n: nat, u: DepNode, v: DepNode)
    requires z.Valid() && z.legacyContainer && z.internalArcs == [] && Tiles(z.headers, n) && z.Link(u, v) &&
             u.target.Export?
    ensures NextTo(z.entries, u, v)
  {
    if b :| 0 <= b < |z.headers| && z.LinkInBundle(b, u, v) {
      var i, j :| z.headers[b].firstEntry <= i < j < z.headers[b].End() && j == i + 1 && u == z.entries[i] &&
        v == z.entries[j];
      assert At(z.entries, i, u) && At(z.entries, j, v);
    } else {
      var a :| z.IsArc(a) && z.LinkByArc(a, u, v);
      assert TileAt(z.headers, a.to);
      var i, j := z.headers[a.from].End() - 1, z.headers[a.to].firstEntry;
      assert At(z.entries, i, u) && At(z.entries, j, v);
    }
  }

  lemma {:induction false} NextIsLink(z: ArcData, order: seq<GraphNode>, sizes: seq<nat>, i: nat)
    requires Bundled(z, order, sizes) && z.legacyContainer && i + 1 < |z.entries|
    ensures z.Link(z.entries[i], z.entries[i + 1])
  {
    var b, c := BundleAt(order, i), BundleAt(order, i + 1);
    assert InBundle(z.headers, order, i) && InBundle(z.headers, order, i + 1);
    if b == c {
      assert z.LinkInBundle(b, z.entries[i], z.entries[i + 1]);
    } else {
      TilesDisjoint(z.headers, |order|, b, c);
      assert z.IsArc(BundleArc(b, c)) && z.LinkByArc(BundleArc(b, c), z.entries[i], z.entries[i + 1]);
    }
  }

  /** In a legacy container the rebuilt lists are the load order, command by command. */
  lemma {:induction false} LegacyListsNeighbours(z: ArcData, all: seq<ExportDependencies>, order: seq<GraphNode>,
                                                 sizes: seq<nat>)
    requires Bundled(z, order, sizes) && Resolved(z, all) && z.legacyContainer && z.internalArcs == []
    ensures ListsNeighbours(all, z.entries)
  {
    forall u: DepNode, v: DepNode | u.target.Export? ensures z.Link(u, v) <==> NextTo(z.entries, u, v) {
      if z.Link(u, v) {
        LinkIsNext(z, |order|, u, v);
      }
      if NextTo(z.entries, u, v) {
        var i, j :| 0 <= i < j && j == i + 1 && At(z.entries, i, u) && At(z.entries, j, v);
        NextIsLink(z, order, sizes, i);
      }
    }
  }
}
