/** Dependency bundles from zen to legacy and back to zen: the conversion as a whole. */
module BundleRoundTrip {
  import opened Package
  import opened LoadOrder
  import opened ExportBundles
  import opened ArcMeaning
  import opened PreloadDependencies
  import opened ImportRebuild
  import opened LegacyPackages
  import opened DependencyBundles

  /** The new zen import map: what each final position holds decides its kind. */
  method ConvertImports(order: seq<Option<nat>>, kinds: seq<ImportSlot>) returns (importMap: seq<ImportSlot>)
    requires forall i :: 0 <= i < |order| && order[i].Some? ==> order[i].value < |kinds|
    ensures |importMap| == |order|
    ensures forall i ::
      0 <= i < |order| ==> importMap[i] == if order[i].Some? then kinds[order[i].value] else OtherImport
  {
    importMap := [];
    for i := 0 to |order|
      invariant |importMap| == i
      invariant forall k :: 0 <= k < i ==> importMap[k] == if order[k].Some? then kinds[order[k].value] else OtherImport
    {
      importMap := importMap + [if order[i].Some? then kinds[order[i].value] else OtherImport];
    }
  }

  /** A zen package's bundles, as zen packages have them: entries are other exports or exports of other packages. */
  ghost predicate ZenBundles(headers: seq<DependencyHeader>, entries: seq<PackageIndex>, position: map<nat, nat>,
                             kinds: seq<ImportSlot>)
  {
    && BundlesValid(headers, entries)
    && (forall p :: p in entries && p.Import? ==> p.importIndex in position)
    && (forall e, from, to, p :: 0 <= e < |headers| && p in headers[e].Lists(entries).List(from, to) ==>
          (match p
           case Null => false
           case Export(f) => f != e && f < |headers|
           case Import(i) => i in position && position[i] < |kinds| && kinds[position[i]].PackageImport?))
  }

  /** The references of the exports exist. */
  ghost predicate FreshExports(exports: seq<ObjectExport>, imports: nat) {
    forall e :: 0 <= e < |exports| ==>
      && exports[e].firstDependency == -1
      && ValidReference(exports[e].classIndex, imports, |exports|) &&
         ValidReference(exports[e].superIndex, imports, |exports|)
      && ValidReference(exports[e].templateIndex, imports, |exports|) &&
         ValidReference(exports[e].outerIndex, imports, |exports|)
  }

  predicate ValidReference(p: PackageIndex, imports: nat, exports: nat) {
    match p
    case Null => true
    case Import(i) => i < imports
    case Export(e) => e < exports
  }

  lemma {:induction false} CompletedMember(item: ObjectExport, d: ExportDependencies, from: Command, to: Command,
                                           p: PackageIndex)
    requires p in Completed(item, d).List(from, to)
    ensures p in d.List(from, to) || p in [item.outerIndex, item.superIndex, item.classIndex, item.templateIndex]
  {
    match (from, to) {
      case (Create, Create) =>
      case (Serialize, Create) =>
      case (Create, Serialize) =>
      case (Serialize, Serialize) =>
    }
  }

  /** The objects named in the lists of a finished legacy package exist. */
  lemma {:induction false} ListedObjectsExist(original: ExportDependencies, position: map<nat, nat>,
                                              d: ExportDependencies, item: ObjectExport, plan: ImportReorderPlan,
                                              lists: ExportDependencies, imports: nat, count: nat, from: Command,
                                              to: Command, p: PackageIndex)
    requires ListsRepositioned(original, d, position) && ListsFromZen(lists, item, d, plan.importRemap)
    requires EveryImportPlaced(plan, imports)
    requires forall q :: q in original.List(from, to) && q.Export? ==> q.exportIndex < count
    requires forall q ::
      q in original.List(from, to) && q.Import? ==> q.importIndex in position && position[q.importIndex] < imports
    requires forall q ::
      q in [item.outerIndex, item.superIndex, item.classIndex, item.templateIndex] ==> ValidReference(q, imports, count)
    requires p in lists.List(from, to)
    ensures p.Export? ==> p.exportIndex < count
    ensures p.Import? ==> p.importIndex < |plan.importOrder|
  {
    var list := Completed(item, d).List(from, to);
    assert lists.List(from, to) == RemapAll(list, plan.importRemap);
    var k :| 0 <= k < |RemapAll(list, plan.importRemap)| && RemapAll(list, plan.importRemap)[k] == p;
    var q := list[k];
    CompletedMember(item, d, from, to, q);
    if q in d.List(from, to) {
      assert ListRepositioned(original.List(from, to), d.List(from, to), position);
      var i :| 0 <= i < |d.List(from, to)| && d.List(from, to)[i] == q;
      assert original.List(from, to)[i] in original.List(from, to);
    }
    assert ValidReference(q, imports, count) || q.Null?;
    if q.Import? {
      assert q.importIndex in plan.importRemap;
    }
  }

  /** An entry of the original lists is kept in its final slot, which holds the same import. */
  lemma {:induction false} OriginalKept(headers: seq<DependencyHeader>, entries: seq<PackageIndex>,
                                        position: map<nat, nat>, kinds: seq<ImportSlot>, plan: ImportReorderPlan,
                                        importMap: seq<ImportSlot>, e: nat, from: Command, to: Command, p: PackageIndex)
    requires ZenBundles(headers, entries, position, kinds) && e < |headers|
    requires EveryImportPlaced(plan, |kinds|)
    requires |importMap| == |plan.importOrder|
    requires forall i :: 0 <= i < |plan.importOrder| && plan.importOrder[i].Some? ==>
      plan.importOrder[i].value < |kinds| && importMap[i] == kinds[plan.importOrder[i].value]
    requires p in headers[e].Lists(entries).List(from, to)
    ensures p.Import? ==> p.importIndex in position
    ensures Kept(FinalSlot(p, position, plan.importRemap), e, importMap)
  {
    if p.Import? {
      var c := position[p.importIndex];
      assert c in plan.importRemap;
      assert plan.importOrder[plan.importRemap[c]] == Some(c);
    }
  }

  /** The finished legacy package holds, for each export, the completed and remapped zen lists. */
  ghost predicate LegacyOf(t: Tables, exports: seq<ObjectExport>, all: seq<ExportDependencies>, remap: map<nat, nat>) {
    && |t.exports| == |exports| == |all|
    && forall e ::
      0 <= e < |exports| ==>
      t.exports[e].InTable(t.preload) && ListsFromZen(t.exports[e].Lists(t.preload), exports[e], all[e], remap)
  }

  lemma {:induction false} FinalizedLists(before: Tables, after: Tables, plan: ImportReorderPlan,
                                          exports: seq<ObjectExport>, all: seq<ExportDependencies>)
    requires Finalized(before, after, plan)
    requires |before.exports| == |exports| == |all|
    requires forall e ::
      0 <= e < |exports| ==>
      before.exports[e].InTable(before.preload) &&
      before.exports[e].Lists(before.preload) == Completed(exports[e], all[e])
    ensures LegacyOf(after, exports, all, plan.importRemap)
  {
    assert after.preload == RemapAll(before.preload, plan.importRemap);
    forall e | 0 <= e < |exports|
      ensures after.exports[e].InTable(after.preload) &&
              ListsFromZen(after.exports[e].Lists(after.preload), exports[e], all[e], plan.importRemap)
    {
      assert after.exports[e] == RemapExport(before.exports[e], plan.importRemap);
      forall from: Command, to: Command
        ensures after.exports[e].InTable(after.preload)
        ensures after.exports[e].Lists(after.preload).List(from, to)
          == RemapAll(Completed(exports[e], all[e]).List(from, to), plan.importRemap)
      {
        RemappedLists(before.exports[e], before.preload, after.preload, plan.importRemap, from, to);
      }
      RemappedLists(before.exports[e], before.preload, after.preload, plan.importRemap, Create, Create);
    }
  }

  /** Every reference to an import names one, also those in the lists that the exports will have. */
  ghost predicate ReferencesClosed(tables: Tables, all: seq<ExportDependencies>)
    requires |all| == |tables.exports|
  {
    && ImportsClosed(tables)
    && forall e, p :: 0 <= e < |all| && Mentions(Completed(tables.exports[e], all[e]), p) ==> Names(p, |tables.imports|)
  }

  /** After the lists have been put into the table its references are closed exactly when these were. */
  lemma {:induction false} AppliedClosed(tables: Tables, all: seq<ExportDependencies>, applied: Tables)
    requires |all| == |tables.exports| == |applied.exports|
    requires applied.imports == tables.imports && applied.dataResources == tables.dataResources && tables.preload == []
    requires forall e :: 0 <= e < |all| ==> SameReferences(tables.exports[e], applied.exports[e])
    requires forall e :: 0 <= e < |all| ==>
      applied.exports[e].InTable(applied.preload) &&
        applied.exports[e].Lists(applied.preload) == Completed(tables.exports[e], all[e])
    requires forall p :: p in applied.preload ==> MentionedBy(tables.exports, all, |all|, p)
    requires ReferencesClosed(tables, all)
    ensures ImportsClosed(applied)
  {
    forall x | x in applied.exports
      ensures Names(x.classIndex, |applied.imports|) && Names(x.superIndex, |applied.imports|)
      ensures Names(x.templateIndex, |applied.imports|) && Names(x.outerIndex, |applied.imports|)
    {
      var e :| 0 <= e < |applied.exports| && applied.exports[e] == x;
      assert SameReferences(tables.exports[e], x) && tables.exports[e] in tables.exports;
    }
  }

  /** `build_asset_from_zen` for dependency bundles. */
  method ZenToLegacy(headers: seq<DependencyHeader>, entries: seq<PackageIndex>, position: map<nat, nat>,
                     tables: Tables, zenCount: nat)
    returns (r: Result<(Tables, ImportReorderPlan)>, ghost all: seq<ExportDependencies>)
    requires BundlesValid(headers, entries) && forall p :: p in entries && p.Import? ==> p.importIndex in position
    requires |headers| == |tables.exports| && forall e ::
      0 <= e < |tables.exports| ==> tables.exports[e].firstDependency == -1
    requires tables.preload == []
    ensures |all| == |headers| && forall e ::
      0 <= e < |headers| ==> ListsRepositioned(headers[e].Lists(entries), all[e], position)
    ensures r.Success? ==>
      PositionsValid(|tables.imports|, zenCount, position) && |tables.imports| + Duplicates(position) <= USIZE_MAX
    ensures r.Failure? ==>
      !ReferencesClosed(tables, all) || !PositionsValid(|tables.imports|, zenCount, position) ||
        |tables.imports| + Duplicates(position) > USIZE_MAX
    ensures r.Success? ==> PlanValid(r.value.1, |tables.imports|, zenCount, position)
    ensures r.Success? ==> LegacyOf(r.value.0, tables.exports, all, r.value.1.importRemap)
  {
    var package := new LegacyPackage(tables);
    var resolved := ResolveBundles(headers, entries, position);
    all := resolved;
    package.ApplyDependencies(resolved);
    ghost var applied := package.Contents();
    if ReferencesClosed(tables, all) {
      AppliedClosed(tables, all, applied);
    }
    var finalized := package.FinalizeAsset(zenCount, position);
    if finalized.Failure? {
      return Failure(finalized.error), all;
    }
    FinalizedLists(applied, package.Contents(), finalized.value, tables.exports, all);
    r := Success((Tables(package.imports, package.exports, package.dataResources, package.preload), finalized.value));
  }

  /** The lists of a zen package name existing imports. */
  lemma {:induction false} ZenListsClosed(headers: seq<DependencyHeader>, entries: seq<PackageIndex>,
                                          position: map<nat, nat>, kinds: seq<ImportSlot>, exports: seq<ObjectExport>,
                                          d: ExportDependencies, e: nat, p: PackageIndex)
    requires ZenBundles(headers, entries, position, kinds) && |headers| == |exports| && FreshExports(exports, |kinds|)
    requires e < |headers| && ListsRepositioned(headers[e].Lists(entries), d, position)
    requires Mentions(Completed(exports[e], d), p)
    ensures Names(p, |kinds|)
  {
    var from, to := MentionedIn(Completed(exports[e], d), p);
    CompletedMember(exports[e], d, from, to, p);
    if p in d.List(from, to) {
      var original := headers[e].Lists(entries).List(from, to);
      assert ListRepositioned(original, d.List(from, to), position);
      var i :| 0 <= i < |d.List(from, to)| && d.List(from, to)[i] == p;
      assert original[i] in original;
    }
  }

  lemma {:induction false} MentionedIn(d: ExportDependencies, p: PackageIndex) returns (from: Command, to: Command)
    requires Mentions(d, p)
    ensures p in d.List(from, to)
  {
    from := if p in d.serializeBeforeSerialize || p in d.serializeBeforeCreate then Serialize else Create;
    to := if p in d.serializeBeforeSerialize then Serialize else if p in d.serializeBeforeCreate then Create
          else if p in d.createBeforeSerialize then Serialize else Create;
  }

  lemma {:induction false} ZenReferencesClosed(headers: seq<DependencyHeader>, entries: seq<PackageIndex>,
                                               position: map<nat, nat>, kinds: seq<ImportSlot>, tables: Tables,
                                               all: seq<ExportDependencies>)
    requires ZenBundles(headers, entries, position, kinds)
    requires |headers| == |tables.exports| == |all| && FreshExports(tables.exports, |kinds|) &&
             |kinds| == |tables.imports|
    requires forall e :: 0 <= e < |headers| ==> ListsRepositioned(headers[e].Lists(entries), all[e], position)
    requires ImportsClosed(tables)
    ensures ReferencesClosed(tables, all)
  {
    forall e, p | 0 <= e < |all| && Mentions(Completed(tables.exports[e], all[e]), p)
      ensures Names(p, |tables.imports|) {
      ZenListsClosed(headers, entries, position, kinds, tables.exports, all[e], e, p);
    }
  }

  lemma {:induction false} LegacyWellFormed(headers: seq<DependencyHeader>, entries: seq<PackageIndex>,
                                            position: map<nat, nat>, kinds: seq<ImportSlot>,
                                            exports: seq<ObjectExport>, all: seq<ExportDependencies>, t: Tables,
                                            plan: ImportReorderPlan)
    requires ZenBundles(headers, entries, position, kinds) && |headers| == |exports| == |all| &&
             FreshExports(exports, |kinds|)
    requires forall e :: 0 <= e < |headers| ==> ListsRepositioned(headers[e].Lists(entries), all[e], position)
    requires LegacyOf(t, exports, all, plan.importRemap) && EveryImportPlaced(plan, |kinds|)
    ensures WellFormed(t.exports, t.preload)
    ensures forall e, from, to, x ::
      0 <= e < |t.exports| && x in t.exports[e].Lists(t.preload).List(from, to) && x.Import? ==>
      x.importIndex < |plan.importOrder|
  {
    forall e, from, to, x | 0 <= e < |t.exports| && x in t.exports[e].Lists(t.preload).List(from, to)
      ensures x.Export? ==> x.exportIndex < |t.exports|
      ensures x.Import? ==> x.importIndex < |plan.importOrder|
    {
      ListedObjectsExist(headers[e].Lists(entries), position, all[e], exports[e], plan, t.exports[e].Lists(t.preload),
                         |kinds|, |exports|, from, to, x);
    }
  }

  // ---- Which dependencies the load order has to respect ----

  /** The lists name the same exports. */
  ghost predicate SameExports(a: seq<PackageIndex>, b: seq<PackageIndex>) {
    forall f :: Export(f) in a <==> Export(f) in b
  }

  lemma {:induction false} RepositionedExports(before: seq<PackageIndex>, after: seq<PackageIndex>,
                                               position: map<nat, nat>)
    requires ListRepositioned(before, after, position)
    ensures SameExports(before, after)
  {
    forall f ensures Export(f) in before <==> Export(f) in after {
      if Export(f) in before {
        var i :| 0 <= i < |before| && before[i] == Export(f);
        assert after[i] == Export(f);
      }
      if Export(f) in after {
        var i :| 0 <= i < |after| && after[i] == Export(f);
        assert before[i] == Export(f);
      }
    }
  }

  lemma {:induction false} RemappedExports(list: seq<PackageIndex>, remap: map<nat, nat>)
    ensures SameExports(list, RemapAll(list, remap))
  {
    var after := RemapAll(list, remap);
    forall f ensures Export(f) in list <==> Export(f) in after {
      if Export(f) in list {
        var i :| 0 <= i < |list| && list[i] == Export(f);
        assert after[i] == Export(f);
      }
      if Export(f) in after {
        var i :| 0 <= i < |after| && after[i] == Export(f);
        assert list[i] == Export(f);
      }
    }
  }

  /** Completing lists that name the same exports gives lists that do. */
  lemma {:induction false} CompletedExports(item: ObjectExport, a: ExportDependencies, b: ExportDependencies,
                                            from: Command, to: Command)
    requires SameExports(a.createBeforeCreate, b.createBeforeCreate) &&
             SameExports(a.serializeBeforeCreate, b.serializeBeforeCreate)
    requires SameExports(a.createBeforeSerialize, b.createBeforeSerialize) &&
             SameExports(a.serializeBeforeSerialize, b.serializeBeforeSerialize)
    ensures SameExports(Completed(item, a).List(from, to), Completed(item, b).List(from, to))
  {
    IncludingExports(a.createBeforeCreate, a.createBeforeCreate, b.createBeforeCreate, b.createBeforeCreate,
                     item.outerIndex);
    IncludingExports(a.serializeBeforeSerialize, Completed(item, a).createBeforeCreate,
                     b.serializeBeforeSerialize, Completed(item, b).createBeforeCreate, item.superIndex);
    var x := Including(a.serializeBeforeCreate, a.serializeBeforeCreate, item.classIndex);
    var y := Including(b.serializeBeforeCreate, b.serializeBeforeCreate, item.classIndex);
    IncludingExports(a.serializeBeforeCreate, a.serializeBeforeCreate, b.serializeBeforeCreate,
                     b.serializeBeforeCreate, item.classIndex);
    IncludingExports(x, x, y, y, item.templateIndex);
    match (from, to) {
      case (Create, Create) =>
      case (Serialize, Create) =>
      case (Create, Serialize) =>
      case (Serialize, Serialize) =>
    }
  }

  lemma {:induction false} IncludingExports(a: seq<PackageIndex>, knownA: seq<PackageIndex>, b: seq<PackageIndex>,
                                            knownB: seq<PackageIndex>, p: PackageIndex)
    requires SameExports(a, b) && SameExports(knownA, knownB)
    ensures SameExports(Including(a, knownA, p), Including(b, knownB, p))
  {
    forall f ensures Export(f) in Including(a, knownA, p) <==> Export(f) in Including(b, knownB, p) {
      assert Export(f) in a <==> Export(f) in b;
      assert Export(f) in knownA <==> Export(f) in knownB;
    }
  }

  /**
   * A zen package: for each export its lists in the packed table, and the outer, super, class and template it needs.
   */
  ghost predicate ZenWaits(exports: seq<ObjectExport>, headers: seq<DependencyHeader>, entries: seq<PackageIndex>,
                           u: DepNode, v: DepNode)
    requires BundlesValid(headers, entries) && |headers| == |exports|
  {
    && u.target.Export? && v.target.Export? && v.target.exportIndex < |exports|
    && (|| (v.command.Serialize? && u == DepNode(v.target, Create))
        || u.target
          in Completed(exports[v.target.exportIndex], headers[v.target.exportIndex].Lists(entries)).List(u.command,
                                                                                                         v.command))
  }

  ghost predicate ZenRound(exports: seq<ObjectExport>, headers: seq<DependencyHeader>, entries: seq<PackageIndex>,
                           p: seq<DepNode>)
    requires BundlesValid(headers, entries) && |headers| == |exports|
  {
    && |p| >= 2 && p[0] == p[|p| - 1]
    && forall i, j :: 0 <= i < j < |p| && j == i + 1 ==> ZenWaits(exports, headers, entries, p[i], p[j])
  }

  /** The completed lists of a zen package go round in a circle. */
  ghost predicate ZenCircular(exports: seq<ObjectExport>, headers: seq<DependencyHeader>, entries: seq<PackageIndex>)
    requires BundlesValid(headers, entries) && |headers| == |exports|
  {
    exists p :: ZenRound(exports, headers, entries, p)
  }

  /** The finished legacy package, its dependency map, and the zen package it came from. */
  ghost predicate CameFrom(t: Tables, deps: Dependencies, exports: seq<ObjectExport>, headers: seq<DependencyHeader>,
                           entries: seq<PackageIndex>, position: map<nat, nat>, all: seq<ExportDependencies>,
                           remap: map<nat, nat>)
  {
    && BundlesValid(headers, entries) && |headers| == |exports|
    && LegacyOf(t, exports, all, remap) && DependencyMap(deps, t.exports, t.preload, |t.exports|)
    && forall e :: 0 <= e < |headers| ==> ListsRepositioned(headers[e].Lists(entries), all[e], position)
  }

  /** What commands of exports wait for is the same before and after. */
  lemma {:induction false} WaitsAlike(t: Tables, deps: Dependencies, exports: seq<ObjectExport>,
                                      headers: seq<DependencyHeader>, entries: seq<PackageIndex>,
                                      position: map<nat, nat>, all: seq<ExportDependencies>, remap: map<nat, nat>,
                                      u: DepNode, v: DepNode)
    requires CameFrom(t, deps, exports, headers, entries, position, all, remap) && u.target.Export?
    ensures u in DependenciesOf(deps, v) <==> ZenWaits(exports, headers, entries, u, v)
  {
    if v in deps {
      var e := v.target.exportIndex;
      var lists, original := t.exports[e].Lists(t.preload), headers[e].Lists(entries);
      MemberOfDependencies(lists, e, u, v.command);
      ListedExportsAlike(original, all[e], exports[e], lists, position, remap, u.command, v.command);
    }
  }

  lemma {:induction false} ListedExportsAlike(original: ExportDependencies, d: ExportDependencies, item: ObjectExport,
                                              lists: ExportDependencies, position: map<nat, nat>, remap: map<nat, nat>,
                                              from: Command, to: Command)
    requires ListsRepositioned(original, d, position) && ListsFromZen(lists, item, d, remap)
    ensures SameExports(lists.List(from, to), Completed(item, original).List(from, to))
  {
    RepositionedLists(original, d, position);
    CompletedExports(item, d, original, from, to);
    RemappedExports(Completed(item, d).List(from, to), remap);
    assert lists.List(from, to) == RemapAll(Completed(item, d).List(from, to), remap);
  }

  lemma {:induction false} RepositionedLists(original: ExportDependencies, d: ExportDependencies,
                                             position: map<nat, nat>)
    requires ListsRepositioned(original, d, position)
    ensures SameExports(d.createBeforeCreate, original.createBeforeCreate) &&
            SameExports(d.serializeBeforeCreate, original.serializeBeforeCreate)
    ensures SameExports(d.createBeforeSerialize, original.createBeforeSerialize)
    ensures SameExports(d.serializeBeforeSerialize, original.serializeBeforeSerialize)
  {
    RepositionedExports(original.List(Create, Create), d.List(Create, Create), position);
    RepositionedExports(original.List(Serialize, Create), d.List(Serialize, Create), position);
    RepositionedExports(original.List(Create, Serialize), d.List(Create, Serialize), position);
    RepositionedExports(original.List(Serialize, Serialize), d.List(Serialize, Serialize), position);
  }

  /** The legacy dependencies are circular exactly when the completed zen lists are. */
  lemma {:induction false} CircularAlike(t: Tables, deps: Dependencies, exports: seq<ObjectExport>,
                                         headers: seq<DependencyHeader>, entries: seq<PackageIndex>,
                                         position: map<nat, nat>, all: seq<ExportDependencies>, remap: map<nat, nat>)
    requires CameFrom(t, deps, exports, headers, entries, position, all, remap)
    ensures Circular(deps) <==> ZenCircular(exports, headers, entries)
  {
    if p :| Round(deps, p) {
      forall i, j | 0 <= i < j < |p| && j == i + 1 ensures ZenWaits(exports, headers, entries, p[i], p[j]) {
        RoundOfExports(deps, t, p, i);
        WaitsAlike(t, deps, exports, headers, entries, position, all, remap, p[i], p[j]);
      }
      assert ZenRound(exports, headers, entries, p);
    }
    if p :| ZenRound(exports, headers, entries, p) {
      forall i, j | 0 <= i < j < |p| && j == i + 1 ensures p[i] in DependenciesOf(deps, p[j]) {
        assert ZenWaits(exports, headers, entries, p[i], p[j]);
        WaitsAlike(t, deps, exports, headers, entries, position, all, remap, p[i], p[j]);
      }
      assert Round(deps, p);
    }
  }

  /** Only commands of exports wait, so only they can go round. */
  lemma {:induction false} RoundOfExports(deps: Dependencies, t: Tables, p: seq<DepNode>, i: nat)
    requires forall v :: v in deps ==> v.target.Export?
    requires Round(deps, p) && i < |p|
    ensures p[i].target.Export?
  {
    var j := if i == 0 then |p| - 1 else i;
    assert p[j - 1] in DependenciesOf(deps, p[j]);
  }

  /** All commands, each once, and each behind those it waits for. */
  ghost predicate InLoadOrder(commands: seq<DepNode>, exports: seq<ObjectExport>, headers: seq<DependencyHeader>,
                              entries: seq<PackageIndex>)
    requires BundlesValid(headers, entries) && |headers| == |exports|
  {
    && Distinct(commands)
    && (forall v :: v in commands <==> v.target.Export? && v.target.exportIndex < |exports|)
    && (forall u, v, j ::
        0 <= j < |commands| && commands[j] == v && ZenWaits(exports, headers, entries, u, v) ==> u in commands[..j])
  }

  lemma {:induction false} OrderedLoads(t: Tables, deps: Dependencies, exports: seq<ObjectExport>,
                                        headers: seq<DependencyHeader>, entries: seq<PackageIndex>,
                                        position: map<nat, nat>, all: seq<ExportDependencies>, remap: map<nat, nat>,
                                        order: seq<GraphNode>, public: seq<bool>)
    requires CameFrom(t, deps, exports, headers, entries, position, all, remap) &&
             Ordered(order, public, |exports|, deps)
    ensures InLoadOrder(EntriesOf(order, |order|), exports, headers, entries)
  {
    var commands := EntriesOf(order, |order|);
    EntriesDistinct(order, public, |exports|, deps);
    forall v ensures v in commands <==> v.target.Export? && v.target.exportIndex < |exports| {
      CommandListed(order, public, deps, |exports|, v);
    }
    forall u, v, j | 0 <= j < |commands| && commands[j] == v && ZenWaits(exports, headers, entries, u, v)
      ensures u in commands[..j] {
      WaitsAlike(t, deps, exports, headers, entries, position, all, remap, u, v);
      assert NodeOf(order[j]) == v;
    }
  }

  lemma {:induction false} CommandListed(order: seq<GraphNode>, public: seq<bool>, deps: Dependencies, n: nat,
                                         v: DepNode)
    requires Ordered(order, public, n, deps)
    ensures v in EntriesOf(order, |order|) <==> v.target.Export? && v.target.exportIndex < n
  {
    var commands := EntriesOf(order, |order|);
    if v in commands {
      var i :| 0 <= i < |commands| && commands[i] == v;
      assert order[i] in order && NodeOf(order[i]) == v;
    }
    if v.target.Export? && v.target.exportIndex < n {
      assert v == DepNode(Export(v.target.exportIndex), v.command);
    }
  }

  // ---- Back to zen ----

  /** The export bundle entries: the commands in load order. */
  method CommandsOf(order: seq<GraphNode>) returns (commands: seq<DepNode>)
    ensures commands == EntriesOf(order, |order|)
  {
    commands := [];
    for i := 0 to |order|
      invariant commands == EntriesOf(order, i)
    {
      commands := commands + [NodeOf(order[i])];
    }
  }

  /** The export bundle entries of a package and its dependency bundles. */
  datatype ZenDependencies = ZenDependencies(commands: seq<DepNode>, headers: seq<DependencyHeader>,
                                             entries: seq<PackageIndex>)

  /** A list of the zen package has what zen keeps of the legacy package's list. */
  ghost predicate FilteredAt(z: ZenDependencies, t: Tables, importMap: seq<ImportSlot>, e: nat, from: Command,
                             to: Command)
    requires BundlesValid(z.headers, z.entries) && e < |z.headers| == |t.exports| && t.exports[e].InTable(t.preload)
  {
    Filters(z.headers[e].Lists(z.entries).List(from, to), t.exports[e].Lists(t.preload).List(from, to), e, importMap)
  }

  /**
   * The zen conversion of a finished legacy package, for dependency bundles. It fails exactly on circular dependencies.
   */
  method LegacyToZen(t: Tables, public: seq<bool>, importMap: seq<ImportSlot>)
    returns (r: Result<ZenDependencies>, ghost deps: Dependencies, ghost order: seq<GraphNode>)
    requires WellFormed(t.exports, t.preload) && |public| == |t.exports|
    requires forall e, from, to, x ::
      0 <= e < |t.exports| && x in t.exports[e].Lists(t.preload).List(from, to) && x.Import? ==>
      x.importIndex < |importMap|
    ensures DependencyMap(deps, t.exports, t.preload, |t.exports|)
    ensures r.Success? <==> !Circular(deps)
    ensures r.Success? ==> Ordered(order, public, |t.exports|, deps) && r.value.commands == EntriesOf(order, |order|)
    ensures r.Success? ==> |r.value.headers| == |t.exports| && BundlesValid(r.value.headers, r.value.entries)
    ensures r.Success? ==> forall e ::
      0 <= e < |t.exports| ==> BundleOf(r.value.headers[e], r.value.entries, deps, e, importMap)
    ensures r.Success? ==> forall e, from, to :: 0 <= e < |t.exports| ==>
      FilteredAt(r.value, t, importMap, e, from, to)
  {
    var collected, sorted := BuildLoadOrder(t.exports, t.preload, public);
    deps, order := collected, [];
    if sorted.Failure? {
      return Failure(sorted.error), deps, order;
    }
    order := sorted.value;
    var commands := CommandsOf(sorted.value);
    ImportsInMap(t, collected, |importMap|);
    var headers, entries := BuildDependencyBundles(collected, |t.exports|, importMap);
    var z := ZenDependencies(commands, headers, entries);
    forall e, from, to | 0 <= e < |t.exports| ensures FilteredAt(z, t, importMap, e, from, to) {
      BundleFilters(t, collected, headers[e], entries, e, importMap, from, to);
    }
    r := Success(z);
  }

  lemma {:induction false} BundleFilters(t: Tables, deps: Dependencies, header: DependencyHeader,
                                         entries: seq<PackageIndex>, e: nat, importMap: seq<ImportSlot>, from: Command,
                                         to: Command)
    requires WellFormed(t.exports, t.preload) && DependencyMap(deps, t.exports, t.preload, |t.exports|)
    requires e < |t.exports| && BundleOf(header, entries, deps, e, importMap)
    ensures Filters(header.Lists(entries).List(from, to), t.exports[e].Lists(t.preload).List(from, to), e, importMap)
  {
    var lists := t.exports[e].Lists(t.preload);
    assert DependenciesOf(deps, DepNode(Export(e), to)) == CommandDependencies(lists, e, to);
    SelectIsList(lists, e, from, to, importMap);
    KeptFilters(lists.List(from, to), e, importMap);
  }

  lemma {:induction false} ImportsInMap(t: Tables, deps: Dependencies, imports: nat)
    requires WellFormed(t.exports, t.preload) && DependencyMap(deps, t.exports, t.preload, |t.exports|)
    requires forall e, from, to, x ::
      0 <= e < |t.exports| && x in t.exports[e].Lists(t.preload).List(from, to) && x.Import? ==> x.importIndex < imports
    ensures forall v, u :: v in deps && u in deps[v] && u.target.Import? ==> u.target.importIndex < imports
  {
    forall v: DepNode, u: DepNode | v in deps && u in deps[v] && u.target.Import?
      ensures u.target.importIndex < imports {
      var e := v.target.exportIndex;
      MemberOfDependencies(t.exports[e].Lists(t.preload), e, u, v.command);
    }
  }

  /** The regenerated lists name what zen lists name: other exports of the package, and exports of other packages. */
  ghost predicate AllNameOthers(z: ZenDependencies, plan: ImportReorderPlan, kinds: seq<ImportSlot>)
    requires BundlesValid(z.headers, z.entries)
  {
    forall e, from, to, p :: 0 <= e < |z.headers| && p in z.headers[e].Lists(z.entries).List(from, to) ==>
      match p
      case Null => false
      case Export(f) => f != e && f < |z.headers|
      case Import(i) =>
        && i < |plan.importOrder| && plan.importOrder[i].Some? && plan.importOrder[i].value < |kinds|
        && kinds[plan.importOrder[i].value].PackageImport?
  }

  lemma {:induction false} RegeneratedNameOthers(z: ZenDependencies, t: Tables, plan: ImportReorderPlan,
                                                 kinds: seq<ImportSlot>, importMap: seq<ImportSlot>)
    requires BundlesValid(z.headers, z.entries) && |z.headers| == |t.exports| && WellFormed(t.exports, t.preload)
    requires forall e, from, to :: 0 <= e < |t.exports| ==> FilteredAt(z, t, importMap, e, from, to)
    requires |importMap| == |plan.importOrder|
    requires forall i :: 0 <= i < |importMap| && importMap[i].PackageImport? ==>
      plan.importOrder[i].Some? && plan.importOrder[i].value < |kinds| &&
      importMap[i] == kinds[plan.importOrder[i].value]
    ensures AllNameOthers(z, plan, kinds)
  {
    forall e, from, to, p | 0 <= e < |z.headers| && p in z.headers[e].Lists(z.entries).List(from, to)
      ensures match p
              case Null => false
              case Export(f) => f != e && f < |z.headers|
              case Import(i) =>
                && i < |plan.importOrder| && plan.importOrder[i].Some? && plan.importOrder[i].value < |kinds|
                && kinds[plan.importOrder[i].value].PackageImport?
    {
      assert FilteredAt(z, t, importMap, e, from, to);
    }
  }

  /** Every original list opens the regenerated one. */
  ghost predicate AllOpenWith(headers: seq<DependencyHeader>, entries: seq<PackageIndex>, z: ZenDependencies,
                              position: map<nat, nat>, remap: map<nat, nat>)
    requires BundlesValid(headers, entries) && BundlesValid(z.headers, z.entries) && |z.headers| == |headers|
  {
    forall e, from, to :: 0 <= e < |headers| ==>
      OpensWith(z.headers[e].Lists(z.entries).List(from, to), headers[e].Lists(entries).List(from, to), position, remap)
  }

  lemma {:induction false} ListsOpen(headers: seq<DependencyHeader>, entries: seq<PackageIndex>,
                                     position: map<nat, nat>, kinds: seq<ImportSlot>, exports: seq<ObjectExport>,
                                     t: Tables, deps: Dependencies, all: seq<ExportDependencies>,
                                     plan: ImportReorderPlan, importMap: seq<ImportSlot>, z: ZenDependencies)
    requires ZenBundles(headers, entries, position, kinds) && EveryImportPlaced(plan, |kinds|)
    requires CameFrom(t, deps, exports, headers, entries, position, all, plan.importRemap)
    requires |importMap| == |plan.importOrder|
    requires forall i :: 0 <= i < |plan.importOrder| && plan.importOrder[i].Some? ==>
      plan.importOrder[i].value < |kinds| && importMap[i] == kinds[plan.importOrder[i].value]
    requires |z.headers| == |headers| && BundlesValid(z.headers, z.entries)
    requires forall e :: 0 <= e < |headers| ==> BundleOf(z.headers[e], z.entries, deps, e, importMap)
    ensures AllOpenWith(headers, entries, z, position, plan.importRemap)
  {
    forall e, from, to | 0 <= e < |headers|
      ensures OpensWith(z.headers[e].Lists(z.entries).List(from, to), headers[e].Lists(entries).List(from, to),
                        position, plan.importRemap)
    {
      forall p | p in headers[e].Lists(entries).List(from, to)
        ensures (p.Import? ==> p.importIndex in position) &&
                Kept(FinalSlot(p, position, plan.importRemap), e, importMap)
      {
        OriginalKept(headers, entries, position, kinds, plan, importMap, e, from, to, p);
      }
      BundlesSurvive(headers[e].Lists(entries), position, all[e], exports[e], plan.importRemap,
                     t.exports[e].Lists(t.preload),
                     deps, z.headers[e], z.entries, importMap, e, from, to);
    }
  }

  /**
   * Zen to legacy to zen, for dependency bundles. `kinds` says what each temporary import is in the zen import map.
   * This succeeds exactly when the import positions are valid and the completed lists are not circular. Then the
   * commands are in load order and every original list opens the regenerated list of the same export and commands.
   */
  method ZenToLegacyToZen(headers: seq<DependencyHeader>, entries: seq<PackageIndex>, position: map<nat, nat>,
                          kinds: seq<ImportSlot>, tables: Tables, zenCount: nat, public: seq<bool>)
    returns (r: Result<ZenDependencies>, ghost plan: ImportReorderPlan)
    requires ZenBundles(headers, entries, position, kinds)
    requires |headers| == |tables.exports| == |public| && |kinds| == |tables.imports|
    requires FreshExports(tables.exports, |kinds|) && ImportsClosed(tables) && tables.preload == []
    ensures r.Success? <==>
            && PositionsValid(|kinds|, zenCount, position) && |kinds| + Duplicates(position) <= USIZE_MAX
            && !ZenCircular(tables.exports, headers, entries)
    ensures r.Success? ==> PlanValid(plan, |kinds|, zenCount, position)
    ensures r.Success? ==> InLoadOrder(r.value.commands, tables.exports, headers, entries)
    ensures r.Success? ==> |r.value.headers| == |headers| && BundlesValid(r.value.headers, r.value.entries)
    ensures r.Success? ==> AllOpenWith(headers, entries, r.value, position, plan.importRemap)
    ensures r.Success? ==> AllNameOthers(r.value, plan, kinds)
  {
    plan := ImportReorderPlan([], map[]);
    var legacy;
    ghost var all;
    legacy, all := ZenToLegacy(headers, entries, position, tables, zenCount);
    ZenReferencesClosed(headers, entries, position, kinds, tables, all);
    if legacy.Failure? {
      return Failure(legacy.error), plan;
    }
    var (t, final) := legacy.value;
    plan := final;
    forall i | 0 <= i < |plan.importOrder| && plan.importOrder[i].Some? ensures plan.importOrder[i].value < |kinds| {
      PlannedImportExists(plan, |kinds|, zenCount, position, i);
    }
    var importMap := ConvertImports(final.importOrder, kinds);
    LegacyWellFormed(headers, entries, position, kinds, tables.exports, all, t, plan);
    ghost var deps, order;
    r, deps, order := LegacyToZen(t, public, importMap);
    CircularAlike(t, deps, tables.exports, headers, entries, position, all, plan.importRemap);
    if r.Success? {
      RegeneratedNameOthers(r.value, t, plan, kinds, importMap);
      OrderedLoads(t, deps, tables.exports, headers, entries, position, all, plan.importRemap, order, public);
      ListsOpen(headers, entries, position, kinds, tables.exports, t, deps, all, plan, importMap, r.value);
    }
  }

  /** Two exports that each have to be created before the other cannot come back. */
  lemma {:induction false} MutualListsAreCircular(exports: seq<ObjectExport>, headers: seq<DependencyHeader>,
                                                  entries: seq<PackageIndex>, e: nat, f: nat)
    requires BundlesValid(headers, entries) && |headers| == |exports| && e < |headers| && f < |headers|
    requires Export(f) in headers[e].Lists(entries).List(Create, Create) &&
             Export(e) in headers[f].Lists(entries).List(Create, Create)
    ensures ZenCircular(exports, headers, entries)
  {
    var a, b := DepNode(Export(e), Create), DepNode(Export(f), Create);
    CompletedExtends(exports[e], headers[e].Lists(entries), Create, Create);
    CompletedExtends(exports[f], headers[f].Lists(entries), Create, Create);
    assert ZenWaits(exports, headers, entries, a, b) && ZenWaits(exports, headers, entries, b, a);
    assert ZenRound(exports, headers, entries, [a, b, a]);
  }
}
