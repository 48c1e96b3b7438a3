/** Legacy packages whose rebuilt lists are completed with outer, super, class and template: when they convert again. */
module FinishedPackages {
  import opened Package
  import opened Bytes
  import opened LoadOrder
  import opened ExportBundles
  import opened ArcDependencies
  import opened ArcMeaning
  import opened ArcRoundTrip
  import opened LegacyRoundTrip
  import opened PreloadDependencies
  import opened LegacyPackages

  // ---- What completion adds ----

  ghost function CompletedAll(exports: seq<ObjectExport>, all: seq<ExportDependencies>): seq<ExportDependencies>
    requires |exports| == |all|
  {
    seq(|all|, e requires 0 <= e < |all| => Completed(exports[e], all[e]))
  }

  /**
   * Completion makes this command of the export wait for `u`; the super's Serialize only if its Create is not listed.
   */
  ghost predicate Adds(item: ObjectExport, superCreated: bool, u: DepNode, command: Command) {
    && !u.target.Null?
    && match (u.command, command)
       case (Create, Create) => u.target == item.outerIndex
       case (Serialize, Create) => u.target == item.classIndex || u.target == item.templateIndex
       case (Serialize, Serialize) => u.target == item.superIndex && !superCreated && item.superIndex != item.outerIndex
       case (Create, Serialize) => false
  }

  lemma {:induction false} CompletionAdds(item: ObjectExport, d: ExportDependencies, u: DepNode, command: Command)
    ensures u.target in Completed(item, d).List(u.command, command) <==>
            u.target in d.List(u.command, command) || Adds(item, item.superIndex in d.createBeforeCreate, u, command)
  {
    match (u.command, command) {
      case (Create, Create) =>
      case (Serialize, Create) =>
      case (Create, Serialize) =>
      case (Serialize, Serialize) =>
    }
  }

  /** The completed lists of a package name what its rebuilt lists name and what completion adds. */
  lemma {:induction false} CompletedWaits(exports: seq<ObjectExport>, all: seq<ExportDependencies>, u: DepNode,
                                          v: DepNode)
    requires |exports| == |all|
    ensures WaitsOn(CompletedAll(exports, all), u, v) <==>
            || WaitsOn(all, u, v)
            || (&& v.target.Export? && v.target.exportIndex < |all|
                && var item, d := exports[v.target.exportIndex], all[v.target.exportIndex];
                   Adds(item, item.superIndex in d.createBeforeCreate, u, v.command))
  {
    if v.target.Export? && v.target.exportIndex < |all| {
      CompletionAdds(exports[v.target.exportIndex], all[v.target.exportIndex], u, v.command);
    }
  }

  /** Everything that completion may add to the lists is a dependency of the original package. */
  ghost predicate NamesNeeds(exports: seq<ObjectExport>, deps: Dependencies) {
    forall e, u: DepNode, c :: 0 <= e < |exports| && u.target.Export? && Adds(exports[e], false, u, c) ==>
      u in DependenciesOf(deps, DepNode(Export(e), c))
  }

  /**
   * Everything that completion adds to lists that name the neighbours in the load order comes earlier in that order.
   */
  ghost predicate NeedsAhead(exports: seq<ObjectExport>, entries: seq<DepNode>) {
    forall e: nat, u: DepNode, c :: AddsTo(exports, entries, e, u, c) ==> Earlier(entries, u, DepNode(Export(e), c))
  }

  ghost predicate AddsTo(exports: seq<ObjectExport>, entries: seq<DepNode>, e: nat, u: DepNode, c: Command) {
    && e < |exports| && u.target.Export?
    && Adds(exports[e], NextTo(entries, DepNode(exports[e].superIndex, Create), DepNode(Export(e), Create)), u, c)
  }

  // ---- Completed lists that can be loaded ----

  lemma {:induction false} DependencyIsEarlier(order: seq<GraphNode>, public: seq<bool>, n: nat, deps: Dependencies,
                                               u: DepNode, v: DepNode)
    requires Ordered(order, public, n, deps) && u in DependenciesOf(deps, v) && u.target.Export?
    requires v.target.Export? && v.target.exportIndex < n
    ensures Earlier(EntriesOf(order, |order|), u, v)
  {
    var entries := EntriesOf(order, |order|);
    CommandHasEntry(order, public, n, deps, v);
    var j :| 0 <= j < |entries| && entries[j] == v;
    DependencyComesFirst(order, public, n, deps, u, v, j);
    var i :| 0 <= i < j && entries[i] == u;
    assert At(entries, i, u) && At(entries, j, v);
  }

  /** Where the original lists name what an export always needs, the completed lists can be loaded. */
  lemma {:induction false} NamedNeedsLoad(exports: seq<ObjectExport>, all: seq<ExportDependencies>,
                                          order: seq<GraphNode>, public: seq<bool>, deps: Dependencies)
    requires |all| == |exports| && Ordered(order, public, |exports|, deps) && NamesNeeds(exports, deps)
    requires KeepsOrder(all, EntriesOf(order, |order|))
    ensures Loadable(CompletedAll(exports, all))
  {
    var entries := EntriesOf(order, |order|);
    forall u, v | WaitsOn(CompletedAll(exports, all), u, v) && u.target.Export? ensures Earlier(entries, u, v) {
      CompletedWaits(exports, all, u, v);
      if !WaitsOn(all, u, v) {
        assert Adds(exports[v.target.exportIndex], false, u, v.command);
        assert v == DepNode(Export(v.target.exportIndex), v.command);
        DependencyIsEarlier(order, public, |exports|, deps, u, v);
      }
    }
    EntriesDistinct(order, public, |exports|, deps);
    OrderIsLoadable(CompletedAll(exports, all), entries);
  }

  // ---- Legacy containers: exactly when ----

  /** An export is created before it is serialized. */
  lemma {:induction false} SameExportInOrder(order: seq<GraphNode>, public: seq<bool>, n: nat, deps: Dependencies,
                                             i: nat, j: nat)
    requires Ordered(order, public, n, deps) && i < j < |order| && NodeOf(order[i]).target == NodeOf(order[j]).target
    ensures NodeOf(order[i]).command.Create? && NodeOf(order[j]).command.Serialize?
  {
    var entries := EntriesOf(order, |order|);
    assert order[i] in order && order[j] in order;
    EntriesDistinct(order, public, n, deps);
    if NodeOf(order[i]).command.Serialize? {
      DependencyComesFirst(order, public, n, deps, NodeOf(order[j]), NodeOf(order[i]), i);
    }
  }

  /** Two commands next to each other in the load order: the lists name the first, or the two are of one export. */
  lemma {:induction false} NeighbourWaits(all: seq<ExportDependencies>, order: seq<GraphNode>, public: seq<bool>,
                                          deps: Dependencies, i: nat)
    requires Ordered(order, public, |all|, deps) && ListsNeighbours(all, EntriesOf(order, |order|)) && i + 1 < |order|
    ensures WaitsOn(all, NodeOf(order[i]), NodeOf(order[i + 1]))
  {
    var u, v := NodeOf(order[i]), NodeOf(order[i + 1]);
    if u.target == v.target {
      assert order[i + 1] in order;
      SameExportInOrder(order, public, |all|, deps, i, i + 1);
    } else {
      var entries := EntriesOf(order, |order|);
      assert At(entries, i, u) && At(entries, i + 1, v);
      assert NextTo(entries, u, v);
    }
  }

  ghost predicate NeighboursForced(all: seq<ExportDependencies>, entries: seq<DepNode>) {
    forall i :: 0 <= i < |entries| - 1 ==> Forces(all, entries[i], entries[i + 1])
  }

  lemma {:induction false} OrderForcesNeighbours(all: seq<ExportDependencies>, order: seq<GraphNode>,
                                                 public: seq<bool>, deps: Dependencies)
    requires Ordered(order, public, |all|, deps) && ListsNeighbours(all, EntriesOf(order, |order|))
    ensures NeighboursForced(all, EntriesOf(order, |order|))
  {
    var entries := EntriesOf(order, |order|);
    forall i | 0 <= i < |entries| - 1 ensures Forces(all, entries[i], entries[i + 1]) {
      NeighbourWaits(all, order, public, deps, i);
      ForcesStep(all, entries[i], entries[i + 1]);
    }
  }

  lemma {:induction false} LaterIsForced(all: seq<ExportDependencies>, entries: seq<DepNode>, i: nat, j: nat)
    requires NeighboursForced(all, entries) && i < j < |entries|
    ensures Forces(all, entries[i], entries[j])
  {
    if i < j - 1 {
      LaterIsForced(all, entries, i, j - 1);
      ForcesTransitive(all, entries[i], entries[j - 1], entries[j]);
    }
  }

  lemma {:induction false} ForcesStays(exports: seq<ObjectExport>, all: seq<ExportDependencies>, u: DepNode, v: DepNode)
    requires |exports| == |all| && Forces(all, u, v)
    ensures Forces(CompletedAll(exports, all), u, v)
  {
    var p :| ChainBetween(all, p, u, v);
    forall i, j | 0 <= i < j < |p| && j == i + 1 ensures WaitsOn(CompletedAll(exports, all), p[i], p[j]) {
      CompletedWaits(exports, all, p[i], p[j]);
    }
    assert ChainBetween(CompletedAll(exports, all), p, u, v);
  }

  /** Whether the super's Create is listed can be read off the load order. */
  lemma {:induction false} SuperCreated(exports: seq<ObjectExport>, all: seq<ExportDependencies>,
                                        order: seq<GraphNode>, public: seq<bool>, deps: Dependencies, e: nat)
    requires Ordered(order, public, |all|, deps) && ListsNeighbours(all, EntriesOf(order, |order|))
    requires e < |exports| == |all| && exports[e].superIndex.Export?
    ensures exports[e].superIndex in all[e].createBeforeCreate <==>
            NextTo(EntriesOf(order, |order|), DepNode(exports[e].superIndex, Create), DepNode(Export(e), Create))
  {
    var entries := EntriesOf(order, |order|);
    var u, v := DepNode(exports[e].superIndex, Create), DepNode(Export(e), Create);
    assert Listed(all, u, v) <==> exports[e].superIndex in all[e].createBeforeCreate;
    EntriesDistinct(order, public, |all|, deps);
    NotNextToItself(entries, v);
  }

  lemma {:induction false} NotNextToItself(entries: seq<DepNode>, u: DepNode)
    requires Distinct(entries)
    ensures !NextTo(entries, u, u)
  {
  }

  lemma {:induction false} LegacyWaits(exports: seq<ObjectExport>, all: seq<ExportDependencies>, order: seq<GraphNode>,
                                       public: seq<bool>, deps: Dependencies, u: DepNode, v: DepNode)
    requires |exports| == |all| && Ordered(order, public, |all|, deps) &&
             ListsNeighbours(all, EntriesOf(order, |order|)) && u.target.Export?
    ensures WaitsOn(CompletedAll(exports, all), u, v) <==>
            || WaitsOn(all, u, v)
            || (v.target.Export? && AddsTo(exports, EntriesOf(order, |order|), v.target.exportIndex, u, v.command))
  {
    CompletedWaits(exports, all, u, v);
    if v.target.Export? && v.target.exportIndex < |all| && exports[v.target.exportIndex].superIndex.Export? {
      SuperCreated(exports, all, order, public, deps, v.target.exportIndex);
    }
  }

  predicate IsNeed(item: ObjectExport, p: PackageIndex) {
    p == item.outerIndex || p == item.superIndex || p == item.classIndex || p == item.templateIndex
  }

  /** The objects that an export always needs exist. */
  ghost predicate NeedsExist(exports: seq<ObjectExport>) {
    forall e, p: PackageIndex :: 0 <= e < |exports| && p.Export? && IsNeed(exports[e], p) ==> p.exportIndex < |exports|
  }

  /** Something added that is not ahead of its command closes a circle with the commands in between. */
  lemma {:induction false} BehindIsCircular(exports: seq<ObjectExport>, all: seq<ExportDependencies>,
                                            order: seq<GraphNode>, public: seq<bool>, deps: Dependencies, e: nat,
                                            u: DepNode, c: Command)
    requires |exports| == |all| && Ordered(order, public, |all|, deps) &&
             ListsNeighbours(all, EntriesOf(order, |order|)) && NeedsExist(exports)
    requires AddsTo(exports, EntriesOf(order, |order|), e, u, c) &&
             !Earlier(EntriesOf(order, |order|), u, DepNode(Export(e), c))
    ensures Forces(CompletedAll(exports, all), u, u)
  {
    var entries, v, finished := EntriesOf(order, |order|), DepNode(Export(e), c), CompletedAll(exports, all);
    LegacyWaits(exports, all, order, public, deps, u, v);
    ForcesStep(finished, u, v);
    assert IsNeed(exports[e], u.target);
    CommandHasEntry(order, public, |all|, deps, u);
    CommandHasEntry(order, public, |all|, deps, v);
    var i :| 0 <= i < |entries| && entries[i] == u;
    var j :| 0 <= j < |entries| && entries[j] == v;
    assert At(entries, i, u) && At(entries, j, v);
    if u != v {
      OrderForcesNeighbours(all, order, public, deps);
      LaterIsForced(all, entries, j, i);
      ForcesStays(exports, all, v, u);
      ForcesTransitive(finished, u, v, u);
    }
  }

  /**
   * In a legacy container the completed lists can be loaded exactly when everything added is ahead in the load order.
   */
  lemma {:induction false} LoadableIffAhead(exports: seq<ObjectExport>, all: seq<ExportDependencies>,
                                            order: seq<GraphNode>, public: seq<bool>, deps: Dependencies)
    requires |exports| == |all| && Ordered(order, public, |all|, deps) && NeedsExist(exports)
    requires KeepsOrder(all, EntriesOf(order, |order|)) && ListsNeighbours(all, EntriesOf(order, |order|))
    ensures Loadable(CompletedAll(exports, all)) <==> NeedsAhead(exports, EntriesOf(order, |order|))
  {
    var entries, finished := EntriesOf(order, |order|), CompletedAll(exports, all);
    if NeedsAhead(exports, entries) {
      forall u, v | WaitsOn(finished, u, v) && u.target.Export? ensures Earlier(entries, u, v) {
        LegacyWaits(exports, all, order, public, deps, u, v);
        assert v == DepNode(Export(v.target.exportIndex), v.command);
      }
      EntriesDistinct(order, public, |all|, deps);
      OrderIsLoadable(finished, entries);
    } else {
      var e: nat, u: DepNode, c :| AddsTo(exports, entries, e, u, c) && !Earlier(entries, u, DepNode(Export(e), c));
      BehindIsCircular(exports, all, order, public, deps, e, u, c);
    }
  }

  // ---- Converting again ----

  /** An export as it is built before its lists are put into the table. */
  function Fresh(item: ObjectExport): ObjectExport {
    item.(firstDependency := -1, serializeBeforeSerialize := 0, createBeforeSerialize := 0, serializeBeforeCreate := 0,
          createBeforeCreate := 0)
  }

  /** The dependencies of the finished package are circular exactly when its lists cannot be loaded. */
  lemma {:induction false} CircularIffNotLoadable(exports: seq<ObjectExport>, table: seq<PackageIndex>,
                                                  deps: Dependencies, finished: seq<ExportDependencies>)
    requires |finished| == |exports| && forall e ::
      0 <= e < |exports| ==> exports[e].InTable(table) && exports[e].Lists(table) == finished[e]
    requires DependencyMap(deps, exports, table, |exports|)
    ensures Circular(deps) <==> !Loadable(finished)
  {
    forall u, v ensures u in DependenciesOf(deps, v) <==> WaitsOn(finished, u, v) {
      if v in deps {
        MemberOfDependencies(finished[v.target.exportIndex], v.target.exportIndex, u, v.command);
      }
    }
    if p :| Round(deps, p) {
      assert p[|p| - 2] in DependenciesOf(deps, p[|p| - 1]);
      assert ChainBetween(finished, p, p[0], p[0]);
    }
    if u: DepNode :| u.target.Export? && Forces(finished, u, u) {
      var p :| ChainBetween(finished, p, u, u);
      assert Round(deps, p);
    }
  }

  /** Rebuilt lists name existing exports. */
  ghost predicate ListsExist(all: seq<ExportDependencies>) {
    forall u, v :: Listed(all, u, v) && u.target.Export? ==> u.target.exportIndex < |all|
  }

  lemma {:induction false} FinishedWellFormed(exports: seq<ObjectExport>, all: seq<ExportDependencies>,
                                              applied: seq<ObjectExport>, table: seq<PackageIndex>)
    requires |exports| == |all| == |applied| && ListsExist(all) && NeedsExist(exports)
    requires forall e ::
      0 <= e < |applied| ==> applied[e].InTable(table) && applied[e].Lists(table) == Completed(exports[e], all[e])
    ensures WellFormed(applied, table)
  {
    forall e, from, to, x | 0 <= e < |applied| && x in applied[e].Lists(table).List(from, to) && x.Export?
      ensures x.exportIndex < |applied| {
      CompletionAdds(exports[e], all[e], DepNode(x, from), to);
      if x in all[e].List(from, to) {
        assert Listed(all, DepNode(x, from), DepNode(Export(e), to));
      } else {
        assert IsNeed(exports[e], x);
      }
    }
  }

  /** The rebuilt lists are completed and put into the table of a new package, whose load order is then asked for. */
  method FinishAndSort(exports: seq<ObjectExport>, all: seq<ExportDependencies>, public: seq<bool>)
    returns (r: Result<seq<GraphNode>>)
    requires |exports| == |all| == |public| && ListsExist(all) && NeedsExist(exports)
    requires forall e :: 0 <= e < |exports| ==> exports[e].firstDependency == -1
    ensures r.Success? <==> Loadable(CompletedAll(exports, all))
  {
    var package := new LegacyPackage(Tables([], exports, [], []));
    package.ApplyDependencies(all);
    FinishedWellFormed(exports, all, package.exports, package.preload);
    var deps;
    deps, r := BuildLoadOrder(package.exports, package.preload, public);
    CircularIffNotLoadable(package.exports, package.preload, deps, CompletedAll(exports, all));
  }

  method FreshExportsOf(exports: seq<ObjectExport>) returns (built: seq<ObjectExport>)
    ensures |built| == |exports| && forall e :: 0 <= e < |exports| ==> built[e] == Fresh(exports[e])
  {
    built := seq(|exports|, e requires 0 <= e < |exports| => Fresh(exports[e]));
  }

  lemma {:induction false} KeptListsExist(all: seq<ExportDependencies>, order: seq<GraphNode>, public: seq<bool>,
                                          deps: Dependencies)
    requires Ordered(order, public, |all|, deps) && KeepsOrder(all, EntriesOf(order, |order|))
    ensures ListsExist(all)
  {
    var entries := EntriesOf(order, |order|);
    forall u, v | Listed(all, u, v) && u.target.Export? ensures u.target.exportIndex < |all| {
      assert WaitsOn(all, u, v);
      var i, j :| 0 <= i < j && At(entries, i, u) && At(entries, j, v);
      assert order[i] in order && NodeOf(order[i]) == u;
    }
  }

  /**
   * A legacy package goes to bundles and arcs, comes back, and is to be converted again. Its finished lists also name
   * outer, super, class and template. If the original lists name these, the second conversion succeeds whenever the
   * first does; out of a legacy container it succeeds exactly when they are ahead in the load order.
   */
  method ConvertAgain(exports: seq<ObjectExport>, table: seq<PackageIndex>, info: PackageInfo, legacyContainer: bool)
    returns (deps: Dependencies, r: Result<seq<ExportDependencies>>, again: Result<seq<GraphNode>>,
             ghost order: seq<GraphNode>)
    requires WellFormed(exports, table) && info.Fits(|exports|) && ImportsExist(exports, table, info.importMap) &&
             NeedsExist(exports)
    ensures DependencyMap(deps, exports, table, |exports|)
    ensures r.Success? <==> !Circular(deps)
    ensures r.Success? ==> Ordered(order, info.public, |exports|, deps) && IsLoadOrder(order, deps, info.public)
    ensures again.Success? ==> r.Success?
    ensures r.Success? && NamesNeeds(exports, deps) ==> again.Success?
    ensures r.Success? && legacyContainer ==> (again.Success? <==> NeedsAhead(exports, EntriesOf(order, |order|)))
  {
    deps, r, order := ConvertAndRebuild(exports, table, info, legacyContainer);
    if r.Failure? {
      again := Failure("nothing to convert");
      return;
    }
    var all := r.value;
    var built := FreshExportsOf(exports);
    KeptListsExist(all, order, info.public, deps);
    again := FinishAndSort(built, all, info.public);
    assert CompletedAll(built, all) == CompletedAll(exports, all);
    if NamesNeeds(exports, deps) {
      NamedNeedsLoad(exports, all, order, info.public, deps);
    }
    if legacyContainer {
      LoadableIffAhead(exports, all, order, info.public, deps);
    }
  }

  /** The whole way through a legacy container, and then again. */
  method ConvertThroughContainerAgain(exports: seq<ObjectExport>, table: seq<PackageIndex>, info: PackageInfo,
                                      ids: seq<nat>, before: seq<byte>, imported: seq<Option<seq<PublicEntry>>>,
                                      loaded: map<nat, ImportedPackage>, ghost others: Others)
    returns (deps: Dependencies, r: Result<seq<ExportDependencies>>, again: Result<seq<GraphNode>>,
             ghost order: seq<GraphNode>)
    requires WellFormed(exports, table) && info.Fits(|exports|) && ImportsExist(exports, table, info.importMap) &&
             NeedsExist(exports)
    requires others.Publish(imported) && others.ids == ids && others.loaded == loaded && |ids| == info.importedPackages
    requires SmallEnough(exports, table, ids) && BundlesFit(imported)
    ensures DependencyMap(deps, exports, table, |exports|)
    ensures r.Success? <==> !Circular(deps) && AllFindable(imported, info.importMap, Needs(deps, |exports|))
    ensures r.Success? ==> Ordered(order, info.public, |exports|, deps) && IsLoadOrder(order, deps, info.public)
    ensures again.Success? <==> r.Success? && NeedsAhead(exports, EntriesOf(order, |order|))
    ensures r.Success? && NamesNeeds(exports, deps) ==> again.Success?
  {
    deps, r, order := ConvertThroughContainer(exports, table, info, ids, before, imported, loaded, others);
    if r.Failure? {
      again := Failure("nothing to convert");
      return;
    }
    var all := r.value;
    var built := FreshExportsOf(exports);
    KeptListsExist(all, order, info.public, deps);
    again := FinishAndSort(built, all, info.public);
    assert CompletedAll(built, all) == CompletedAll(exports, all);
    LoadableIffAhead(exports, all, order, info.public, deps);
    if NamesNeeds(exports, deps) {
      NamedNeedsLoad(exports, all, order, info.public, deps);
    }
  }

  // ---- A package that does not convert again ----

  /** Export 0 has export 1 as its class, and no list says so. */
  function ClassBehind(): seq<ObjectExport> {
    [ObjectExport("A", Export(1), Null, Null, Null, -1, 0, 0, 0, 0),
     ObjectExport("B", Null, Null, Null, Null, -1, 0, 0, 0, 0)]
  }

  /** It converts to a legacy container, but what comes back does not: export 0 is created first of all. */
  lemma {:induction false} ClassBehindIsNotAhead(deps: Dependencies, order: seq<GraphNode>)
    requires DependencyMap(deps, ClassBehind(), [], 2) && IsLoadOrder(order, deps, [false, false])
    requires Ordered(order, [false, false], 2, deps)
    ensures !NeedsAhead(ClassBehind(), EntriesOf(order, |order|))
  {
    var entries, u, v := EntriesOf(order, |order|), DepNode(Export(1), Serialize), DepNode(Export(0), Create);
    FirstIsCreated(deps, order);
    EntriesDistinct(order, [false, false], 2, deps);
    assert entries[0] == v;
    assert AddsTo(ClassBehind(), entries, 0, u, Create);
    NothingBeforeFirst(entries, u);
  }

  lemma {:induction false} NothingBeforeFirst(entries: seq<DepNode>, u: DepNode)
    requires Distinct(entries) && entries != []
    ensures !Earlier(entries, u, entries[0])
  {
  }

  lemma {:induction false} FirstIsCreated(deps: Dependencies, order: seq<GraphNode>)
    requires DependencyMap(deps, ClassBehind(), [], 2) && IsLoadOrder(order, deps, [false, false])
    ensures |order| > 0 && order[0] == GraphNode(0, Create, false)
  {
    var public := [false, false];
    var g :| LoadGraph(g, deps, public) && order == Greedy(g, []);
    var first := GraphNode(0, Create, false);
    NodesOfExact(public, 2, first);
    var create := DepNode(Export(0), Create);
    assert create in deps && deps[create] == [];
    forall u ensures !g.Edge(u, first) {
      assert EdgeIn(g.dependants, u, first) <==> first in g.nodes && DependsOn(deps, public, u, first);
    }
    var ready := g.Ready(Elements<GraphNode>([]));
    assert first in ready;
    forall x | x in ready ensures x == first || Precedes(first, x) {
      NodesOfExact(public, 2, x);
    }
    GreedyStep(g, [], first);
    GreedyExtends(g, [] + [first]);
  }
}
