/** Dependency bundles (container version NoExportInfo and later): per export, four lists packed into one table. */
module DependencyBundles {
  import opened Package
  import opened ExportBundles
  import opened PreloadDependencies
  import opened ImportRebuild
  import opened LegacyPackages

  /** `FDependencyBundleHeader`. */
  datatype DependencyHeader = DependencyHeader(
    firstEntry: nat,
    createBeforeCreate: nat,
    serializeBeforeCreate: nat,
    createBeforeSerialize: nat,
    serializeBeforeSerialize: nat)
  {
    // Ends of the four lists, in the order in which they are packed.
    function End0(): nat { firstEntry + createBeforeCreate }
    function End1(): nat { End0() + serializeBeforeCreate }
    function End2(): nat { End1() + createBeforeSerialize }
    function End3(): nat { End2() + serializeBeforeSerialize }

    /** The four lists in the packed table. */
    function Lists(entries: seq<PackageIndex>): ExportDependencies
      requires End3() <= |entries|
    {
      ExportDependencies(
        entries[End2()..End3()], entries[End1()..End2()], entries[End0()..End1()], entries[firstEntry..End0()])
    }
  }

  ghost predicate BundlesValid(headers: seq<DependencyHeader>, entries: seq<PackageIndex>) {
    forall e :: 0 <= e < |headers| ==> headers[e].End3() <= |entries|
  }

  // ---- Zen to legacy ----

  /** An entry under the temporary import indices. */
  function Repositioned(p: PackageIndex, position: map<nat, nat>): PackageIndex
    requires p.Import? ==> p.importIndex in position
  {
    if p.Import? then Import(position[p.importIndex]) else p
  }

  ghost predicate ListRepositioned(before: seq<PackageIndex>, after: seq<PackageIndex>, position: map<nat, nat>) {
    && |after| == |before|
    && forall i :: 0 <= i < |before| ==>
         && (before[i].Import? ==> before[i].importIndex in position)
         && after[i] == Repositioned(before[i], position)
  }

  ghost predicate ListsRepositioned(before: ExportDependencies, after: ExportDependencies, position: map<nat, nat>) {
    forall from, to :: ListRepositioned(before.List(from, to), after.List(from, to), position)
  }

  /** A slice of the table under the temporary import indices. */
  method RepositionSlice(entries: seq<PackageIndex>, first: nat, last: nat, position: map<nat, nat>)
    returns (r: seq<PackageIndex>)
    requires first <= last <= |entries|
    requires forall p :: p in entries && p.Import? ==> p.importIndex in position
    ensures ListRepositioned(entries[first..last], r, position)
  {
    r := [];
    for i := first to last
      invariant |r| == i - first
      invariant forall k :: 0 <= k < |r| ==> r[k] == Repositioned(entries[first + k], position)
    {
      assert entries[i] in entries;
      r := r + [Repositioned(entries[i], position)];
    }
    forall k | 0 <= k < |r|
      ensures entries[first..last][k].Import? ==> entries[first..last][k].importIndex in position {
      assert entries[first + k] in entries;
    }
  }

  /** The four lists of one export. */
  method ResolveBundle(h: DependencyHeader, entries: seq<PackageIndex>, position: map<nat, nat>)
    returns (d: ExportDependencies)
    requires h.End3() <= |entries|
    requires forall p :: p in entries && p.Import? ==> p.importIndex in position
    ensures ListsRepositioned(h.Lists(entries), d, position)
  {
    var createBeforeCreate := RepositionSlice(entries, h.firstEntry, h.End0(), position);
    var serializeBeforeCreate := RepositionSlice(entries, h.End0(), h.End1(), position);
    var createBeforeSerialize := RepositionSlice(entries, h.End1(), h.End2(), position);
    var serializeBeforeSerialize := RepositionSlice(entries, h.End2(), h.End3(), position);
    d := ExportDependencies(serializeBeforeSerialize, createBeforeSerialize, serializeBeforeCreate, createBeforeCreate);
  }

  /** `resolve_export_dependencies_internal_dependency_bundles`. */
  method ResolveBundles(headers: seq<DependencyHeader>, entries: seq<PackageIndex>, position: map<nat, nat>)
    returns (all: seq<ExportDependencies>)
    requires BundlesValid(headers, entries)
    requires forall p :: p in entries && p.Import? ==> p.importIndex in position
    ensures |all| == |headers|
    ensures forall e :: 0 <= e < |headers| ==> ListsRepositioned(headers[e].Lists(entries), all[e], position)
  {
    all := [];
    for e := 0 to |headers|
      invariant |all| == e
      invariant forall k :: 0 <= k < e ==> ListsRepositioned(headers[k].Lists(entries), all[k], position)
    {
      var d := ResolveBundle(headers[e], entries, position);
      all := all + [d];
    }
  }

  // ---- Legacy to zen ----

  /** Entries that zen keeps: exports other than the export itself, and imports of other packages' exports. */
  predicate Kept(p: PackageIndex, e: nat, importMap: seq<ImportSlot>) {
    match p
    case Null => false
    case Export(f) => f != e
    case Import(i) => i < |importMap| && importMap[i].PackageImport?
  }

  ghost function KeptOf(list: seq<PackageIndex>, e: nat, importMap: seq<ImportSlot>): seq<PackageIndex> {
    if list == [] then []
    else
      var last := list[|list| - 1];
      KeptOf(list[..|list| - 1], e, importMap) + if Kept(last, e, importMap) then [last] else []
  }

  /** The dependencies of one command on one kind of command, as a list of objects. */
  ghost function Select(deps: seq<DepNode>, command: Command, e: nat, importMap: seq<ImportSlot>): seq<PackageIndex> {
    if deps == [] then []
    else
      var last := deps[|deps| - 1];
      Select(deps[..|deps| - 1], command, e, importMap) +
      if last.command == command && Kept(last.target, e, importMap) then [last.target] else []
  }

  /** A list `zen` has of `legacy` exactly the exports other than `e` and the imports of other packages' exports. */
  ghost predicate Filters(zen: seq<PackageIndex>, legacy: seq<PackageIndex>, e: nat, importMap: seq<ImportSlot>) {
    forall p :: p in zen <==>
      p in legacy
      && match p
         case Null => false
         case Export(f) => f != e
         case Import(i) => i < |importMap| && importMap[i].PackageImport?
  }

  lemma {:induction false} KeptFilters(list: seq<PackageIndex>, e: nat, importMap: seq<ImportSlot>)
    ensures Filters(KeptOf(list, e, importMap), list, e, importMap)
  {
    if list != [] {
      var front := list[..|list| - 1];
      KeptFilters(front, e, importMap);
      assert list == front + [list[|list| - 1]];
    }
  }

  /** The object is in the list if and only if its command is among the dependencies and zen keeps it. */
  ghost predicate Collected(list: seq<PackageIndex>, deps: seq<DepNode>, command: Command, e: nat,
                            importMap: seq<ImportSlot>, p: PackageIndex)
  {
    p in list <==>
      DepNode(p, command) in deps
      && match p
         case Null => false
         case Export(f) => f != e
         case Import(i) => i < |importMap| && importMap[i].PackageImport?
  }

  lemma {:induction false} SelectFilters(deps: seq<DepNode>, command: Command, e: nat, importMap: seq<ImportSlot>,
                                         p: PackageIndex)
    ensures Collected(Select(deps, command, e, importMap), deps, command, e, importMap, p)
  {
    if deps != [] {
      SelectFilters(deps[..|deps| - 1], command, e, importMap, p);
      assert deps == deps[..|deps| - 1] + [deps[|deps| - 1]];
    }
  }

  /** `collect_export_dependencies`. */
  method CollectExportDependencies(deps: seq<DepNode>, command: Command, e: nat, importMap: seq<ImportSlot>)
    returns (r: seq<PackageIndex>)
    requires forall d :: d in deps && d.target.Import? ==> d.target.importIndex < |importMap|
    ensures r == Select(deps, command, e, importMap)
    ensures forall p :: Collected(r, deps, command, e, importMap, p)
  {
    r := [];
    for i := 0 to |deps|
      invariant r == Select(deps[..i], command, e, importMap)
    {
      var d := deps[i];
      assert d in deps;
      assert deps[..i + 1][..i] == deps[..i];
      if d.command == command && d.target != Export(e) {
        if d.target.Export? {
          r := r + [d.target];
        } else if d.target.Import? && importMap[d.target.importIndex].PackageImport? {
          r := r + [d.target];
        }
      }
    }
    assert deps[..|deps|] == deps;
    forall p ensures Collected(r, deps, command, e, importMap, p) {
      SelectFilters(deps, command, e, importMap, p);
    }
  }

  lemma {:induction false} SelectConcat(a: seq<DepNode>, b: seq<DepNode>, command: Command, e: nat,
                                        importMap: seq<ImportSlot>)
    ensures Select(a + b, command, e, importMap) == Select(a, command, e, importMap) + Select(b, command, e, importMap)
  {
    if b == [] {
      assert a + b == a;
    } else {
      assert (a + b)[..|a + b| - 1] == a + b[..|b| - 1];
      SelectConcat(a, b[..|b| - 1], command, e, importMap);
    }
  }

  lemma {:induction false} SelectOne(list: seq<PackageIndex>, command: Command, wanted: Command, e: nat,
                                     importMap: seq<ImportSlot>)
    ensures Select(WithCommand(list, command), wanted, e, importMap) == if command == wanted
      then KeptOf(list, e, importMap) else []
  {
    if list != [] {
      var front := list[..|list| - 1];
      SelectOne(front, command, wanted, e, importMap);
      assert WithCommand(list, command)[..|list| - 1] == WithCommand(front, command);
    }
  }

  /** What is collected for a command pair is the corresponding list, without the entries that zen drops. */
  lemma {:induction false} SelectIsList(lists: ExportDependencies, e: nat, from: Command, to: Command,
                                        importMap: seq<ImportSlot>)
    ensures Select(CommandDependencies(lists, e, to), from, e, importMap) == KeptOf(lists.List(from, to), e, importMap)
  {
    match to {
      case Create =>
        SelectConcat(WithCommand(lists.createBeforeCreate, Create),
                     WithCommand(lists.serializeBeforeCreate, Serialize), from, e, importMap);
        SelectOne(lists.createBeforeCreate, Create, from, e, importMap);
        SelectOne(lists.serializeBeforeCreate, Serialize, from, e, importMap);
      case Serialize =>
        var self := [DepNode(Export(e), Create)];
        var create := WithCommand(lists.createBeforeSerialize, Create);
        SelectConcat(self + create, WithCommand(lists.serializeBeforeSerialize, Serialize), from, e, importMap);
        SelectConcat(self, create, from, e, importMap);
        SelectOne(lists.createBeforeSerialize, Create, from, e, importMap);
        SelectOne(lists.serializeBeforeSerialize, Serialize, from, e, importMap);
        assert self[..0] == [];
        assert Select(self, from, e, importMap) == [];
    }
    match from {
      case Create =>
      case Serialize =>
    }
  }

  /** Bundle `e` holds the four lists of export `e`, in table order directly after the bundles before it. */
  ghost predicate BundleOf(h: DependencyHeader, entries: seq<PackageIndex>, deps: Dependencies, e: nat,
                           importMap: seq<ImportSlot>)
  {
    && h.End3() <= |entries|
    && forall from, to ::
      h.Lists(entries).List(from, to) == Select(DependenciesOf(deps, DepNode(Export(e), to)), from, e, importMap)
  }

  /** The bundles lie one after the other and fill the table of `n` entries. */
  ghost predicate Packed(headers: seq<DependencyHeader>, n: nat) {
    && (headers == [] ==> n == 0)
    && (headers != [] ==> headers[0].firstEntry == 0 && headers[|headers| - 1].End3() == n)
    && (forall i, j :: 0 <= i < j < |headers| && j == i + 1 ==> headers[j].firstEntry == headers[i].End3())
  }

  /** `build_zen_dependency_bundle_new` for the dependency bundles. */
  method BuildDependencyBundles(deps: Dependencies, exportCount: nat, importMap: seq<ImportSlot>)
    returns (headers: seq<DependencyHeader>, entries: seq<PackageIndex>)
    requires forall v, u :: v in deps && u in deps[v] && u.target.Import? ==> u.target.importIndex < |importMap|
    ensures |headers| == exportCount
    ensures forall e :: 0 <= e < exportCount ==> BundleOf(headers[e], entries, deps, e, importMap)
    ensures Packed(headers, |entries|)
  {
    headers, entries := [], [];
    for e := 0 to exportCount
      invariant |headers| == e
      invariant forall k :: 0 <= k < e ==> BundleOf(headers[k], entries, deps, k, importMap)
      invariant Packed(headers, |entries|)
    {
      ghost var before := entries;
      var header;
      header, entries := BuildBundle(deps, e, importMap, entries);
      forall k | 0 <= k < e ensures BundleOf(headers[k], entries, deps, k, importMap) {
        BundleStays(headers[k], before, entries, deps, k, importMap);
      }
      headers := headers + [header];
    }
  }

  lemma {:induction false} BundleStays(h: DependencyHeader, before: seq<PackageIndex>, after: seq<PackageIndex>,
                                       deps: Dependencies, e: nat, importMap: seq<ImportSlot>)
    requires before <= after && BundleOf(h, before, deps, e, importMap)
    ensures BundleOf(h, after, deps, e, importMap)
  {
    assert h.Lists(after) == h.Lists(before);
  }

  /** Four lists behind each other, cut apart again. */
  lemma {:induction false} FourLists<T>(before: seq<T>, a: seq<T>, b: seq<T>, c: seq<T>, d: seq<T>)
    ensures var all := before + a + b + c + d;
      && all[|before|..|before| + |a|] == a
      && all[|before| + |a|..|before| + |a| + |b|] == b
      && all[|before| + |a| + |b|..|before| + |a| + |b| + |c|] == c
      && all[|before| + |a| + |b| + |c|..|before| + |a| + |b| + |c| + |d|] == d
  {
  }

  method BuildBundle(deps: Dependencies, e: nat, importMap: seq<ImportSlot>, before: seq<PackageIndex>)
    returns (header: DependencyHeader, entries: seq<PackageIndex>)
    requires forall v, u :: v in deps && u in deps[v] && u.target.Import? ==> u.target.importIndex < |importMap|
    ensures before <= entries && header.firstEntry == |before| && header.End3() == |entries|
    ensures BundleOf(header, entries, deps, e, importMap)
  {
    var create, serialize := DepNode(Export(e), Create), DepNode(Export(e), Serialize);
    var cbc := CollectExportDependencies(DependenciesOf(deps, create), Create, e, importMap);
    var sbc := CollectExportDependencies(DependenciesOf(deps, create), Serialize, e, importMap);
    var cbs := CollectExportDependencies(DependenciesOf(deps, serialize), Create, e, importMap);
    var sbs := CollectExportDependencies(DependenciesOf(deps, serialize), Serialize, e, importMap);
    header := DependencyHeader(|before|, |cbc|, |sbc|, |cbs|, |sbs|);
    entries := before + cbc + sbc + cbs + sbs;
    FourLists(before, cbc, sbc, cbs, sbs);
    assert header.Lists(entries) == ExportDependencies(sbs, cbs, sbc, cbc);
    forall from: Command, to: Command
      ensures header.Lists(entries).List(from, to)
      == Select(DependenciesOf(deps, DepNode(Export(e), to)), from, e, importMap) {
      match (from, to) {
        case (Create, Create) =>
        case (Serialize, Create) =>
        case (Create, Serialize) =>
        case (Serialize, Serialize) =>
      }
    }
  }

  // ---- Zen to legacy to zen ----

  /** The final import slots that `remap` and `position` lead to. */
  function FinalSlot(p: PackageIndex, position: map<nat, nat>, remap: map<nat, nat>): PackageIndex
    requires p.Import? ==> p.importIndex in position
  {
    Remap(Repositioned(p, position), remap)
  }

  /** The entries of `list`, each in its final slot, open the list `regenerated`. */
  ghost predicate OpensWith(regenerated: seq<PackageIndex>, list: seq<PackageIndex>, position: map<nat, nat>,
                            remap: map<nat, nat>)
  {
    && |list| <= |regenerated|
    && forall i :: 0 <= i < |list| ==>
         && (list[i].Import? ==> list[i].importIndex in position)
         && regenerated[i] == FinalSlot(list[i], position, remap)
  }

  lemma {:induction false} KeptOfConcat(a: seq<PackageIndex>, b: seq<PackageIndex>, e: nat, importMap: seq<ImportSlot>)
    ensures KeptOf(a + b, e, importMap) == KeptOf(a, e, importMap) + KeptOf(b, e, importMap)
  {
    if b == [] {
      assert a + b == a;
    } else {
      assert (a + b)[..|a + b| - 1] == a + b[..|b| - 1];
      KeptOfConcat(a, b[..|b| - 1], e, importMap);
    }
  }

  lemma {:induction false} KeptOfAll(a: seq<PackageIndex>, e: nat, importMap: seq<ImportSlot>)
    requires forall p :: p in a ==> Kept(p, e, importMap)
    ensures KeptOf(a, e, importMap) == a
  {
    if a != [] {
      var front, last := a[..|a| - 1], a[|a| - 1];
      assert last in a && Kept(last, e, importMap);
      forall p | p in front ensures Kept(p, e, importMap) {
        assert p in a;
      }
      KeptOfAll(front, e, importMap);
      assert a == front + [last];
    }
  }

  /** Every list only grows at its end when the lists are completed. */
  lemma {:induction false} CompletedExtends(item: ObjectExport, d: ExportDependencies, from: Command, to: Command)
    ensures d.List(from, to) <= Completed(item, d).List(from, to)
  {
    match (from, to) {
      case (Create, Create) =>
      case (Serialize, Create) =>
      case (Create, Serialize) =>
      case (Serialize, Serialize) =>
    }
  }

  /**
   * The objects an export always needs are among its completed dependencies: its outer must be created and its class
   * and template serialized before it is created; its super is in create-before-create or serialize-before-serialize.
   */
  lemma {:induction false} CompletedNamesNeeds(item: ObjectExport, d: ExportDependencies)
    ensures var c := Completed(item, d);
      && (!item.outerIndex.Null? ==> item.outerIndex in c.createBeforeCreate)
      && (!item.classIndex.Null? ==> item.classIndex in c.serializeBeforeCreate)
      && (!item.templateIndex.Null? ==> item.templateIndex in c.serializeBeforeCreate)
      && (!item.superIndex.Null? ==>
          item.superIndex in c.createBeforeCreate || item.superIndex in c.serializeBeforeSerialize)
    ensures var c := Completed(item, d);
      && c.createBeforeSerialize == d.createBeforeSerialize
      && (forall p :: p in c.createBeforeCreate && p !in d.createBeforeCreate ==> p == item.outerIndex)
      && (forall p :: p in c.serializeBeforeCreate && p !in d.serializeBeforeCreate ==>
            p == item.classIndex || p == item.templateIndex)
      && (forall p :: p in c.serializeBeforeSerialize && p !in d.serializeBeforeSerialize ==>
            p == item.superIndex && p !in c.createBeforeCreate)
      && |c.createBeforeCreate| <= |d.createBeforeCreate| + 1
      && |c.serializeBeforeSerialize| <= |d.serializeBeforeSerialize| + 1
      && |c.serializeBeforeCreate| <= |d.serializeBeforeCreate| + 2
    ensures var c := Completed(item, d); forall p ::
      && (p in d.createBeforeCreate ==> multiset(c.createBeforeCreate)[p] == multiset(d.createBeforeCreate)[p])
      && (p in d.serializeBeforeCreate ==>
          multiset(c.serializeBeforeCreate)[p] == multiset(d.serializeBeforeCreate)[p])
  {
  }

  /**
   * One list on its way through legacy: repositioned, completed at the end, remapped, and filtered when zen is built
   * again, it still opens with its original entries in their final slots.
   */
  lemma {:induction false} ListSurvives(original: seq<PackageIndex>, repositioned: seq<PackageIndex>,
                                        completed: seq<PackageIndex>, position: map<nat, nat>, remap: map<nat, nat>,
                                        e: nat, importMap: seq<ImportSlot>)
    requires ListRepositioned(original, repositioned, position) && repositioned <= completed
    requires forall p :: p in original ==> Kept(FinalSlot(p, position, remap), e, importMap)
    ensures OpensWith(KeptOf(RemapAll(completed, remap), e, importMap), original, position, remap)
  {
    var first, rest := RemapAll(repositioned, remap), RemapAll(completed[|repositioned|..], remap);
    assert RemapAll(completed, remap) == first + rest;
    KeptOfConcat(first, rest, e, importMap);
    forall p | p in first ensures Kept(p, e, importMap) {
      var i :| 0 <= i < |first| && first[i] == p;
      assert original[i] in original;
    }
    KeptOfAll(first, e, importMap);
  }

  /** The lists of an export in the flat table after the table and the export have been remapped. */
  lemma {:induction false} RemappedLists(item: ObjectExport, table: seq<PackageIndex>, remapped: seq<PackageIndex>,
                                         remap: map<nat, nat>, from: Command, to: Command)
    requires item.InTable(table) && remapped == RemapAll(table, remap)
    ensures RemapExport(item, remap).InTable(remapped)
    ensures RemapExport(item, remap).Lists(remapped).List(from, to) == RemapAll(item.Lists(table).List(from, to), remap)
  {
    var after := RemapExport(item, remap);
    if item.firstDependency != -1 {
      RemappedSlice(table, remap, item.firstDependency, item.serializeBeforeSerialize);
      RemappedSlice(table, remap, item.CreateBeforeSerializeStart(), item.createBeforeSerialize);
      RemappedSlice(table, remap, item.SerializeBeforeCreateStart(), item.serializeBeforeCreate);
      RemappedSlice(table, remap, item.CreateBeforeCreateStart(), item.createBeforeCreate);
    } else {
      assert RemapAll([], remap) == [];
    }
    match (from, to) {
      case (Create, Create) =>
      case (Serialize, Create) =>
      case (Create, Serialize) =>
      case (Serialize, Serialize) =>
    }
  }

  lemma {:induction false} RemappedSlice(table: seq<PackageIndex>, remap: map<nat, nat>, start: int, count: int)
    requires SliceExists(table, start, count)
    ensures Slice(RemapAll(table, remap), start, count) == RemapAll(Slice(table, start, count), remap)
  {
  }

  /** The lists of a finished legacy export: the zen lists `all`, completed, under the final import indices. */
  ghost predicate ListsFromZen(lists: ExportDependencies, item: ObjectExport, d: ExportDependencies,
                               remap: map<nat, nat>)
  {
    forall from, to :: lists.List(from, to) == RemapAll(Completed(item, d).List(from, to), remap)
  }

  /**
   * Dependency bundles survive the way from zen to legacy and back: an export's lists, repositioned, completed,
   * remapped and packed into a new bundle, each open with the original list, with imports in their final slots.
   */
  lemma {:induction false} BundlesSurvive(original: ExportDependencies, position: map<nat, nat>, d: ExportDependencies,
                                          item: ObjectExport, remap: map<nat, nat>, lists: ExportDependencies,
                                          deps: Dependencies, header': DependencyHeader, entries': seq<PackageIndex>,
                                          importMap: seq<ImportSlot>, e: nat, from: Command, to: Command)
    requires ListsRepositioned(original, d, position) && ListsFromZen(lists, item, d, remap)
    requires DependenciesOf(deps, DepNode(Export(e), to)) == CommandDependencies(lists, e, to)
    requires BundleOf(header', entries', deps, e, importMap)
    requires forall p :: p in original.List(from, to) ==>
      (p.Import? ==> p.importIndex in position) && Kept(FinalSlot(p, position, remap), e, importMap)
    ensures OpensWith(header'.Lists(entries').List(from, to), original.List(from, to), position, remap)
  {
    SelectIsList(lists, e, from, to, importMap);
    CompletedExtends(item, d, from, to);
    assert ListRepositioned(original.List(from, to), d.List(from, to), position);
    ListSurvives(original.List(from, to), d.List(from, to), Completed(item, d).List(from, to), position, remap, e,
                 importMap);
  }

  /** A final slot holds the same import as the original slot. */
  lemma {:induction false} FinalSlotHoldsSameImport(p: PackageIndex, position: map<nat, nat>, plan: ImportReorderPlan,
                                                    current: nat, zenCount: nat)
    requires p.Import? && p.importIndex in position
    requires PositionsValid(current, zenCount, position) && PlanValid(plan, current, zenCount, position)
    ensures FinalSlot(p, position, plan.importRemap).Import?
    ensures var slot := FinalSlot(p, position, plan.importRemap).importIndex;
      slot < |plan.importOrder| && p.importIndex < |plan.importOrder| &&
        plan.importOrder[slot] == plan.importOrder[p.importIndex]
  {
    var c := position[p.importIndex];
    assert c in plan.importRemap;
    assert plan.importOrder[p.importIndex] == Some(c);
  }
}
