/** A legacy package under construction: import rebuild in place, and the full names of its objects. */
module LegacyPackages {
  import opened Package
  import opened PreloadDependencies
  import opened ImportRebuild

  /** `FObjectImport`. */
  datatype ObjectImport = ObjectImport(classPackage: string, className: string, objectName: string,
                                       outerIndex: PackageIndex)

  /** The placeholder for a zen slot that nothing is put into. */
  const UNKNOWN_PACKAGE := ObjectImport("/Script/CoreUObject", "Package", "/Engine/UnknownPackage", Null)

  /** The tables of `FLegacyPackageHeader` that refer to objects; of a data resource only its outer matters here. */
  datatype Tables = Tables(
    imports: seq<ObjectImport>,
    exports: seq<ObjectExport>,
    dataResources: seq<PackageIndex>,
    preload: seq<PackageIndex>)
  {
    predicate Exists(p: PackageIndex) {
      match p
      case Null => true
      case Import(i) => i < |imports|
      case Export(e) => e < |exports|
    }

    /** Every outer names an existing object. */
    predicate OutersExist() {
      && (forall i :: 0 <= i < |imports| ==> Exists(imports[i].outerIndex))
      && (forall e :: 0 <= e < |exports| ==> Exists(exports[e].outerIndex))
    }

    function Outer(p: PackageIndex): PackageIndex
      requires Exists(p) && !p.Null?
    {
      if p.Import? then imports[p.importIndex].outerIndex else exports[p.exportIndex].outerIndex
    }

    function Name(p: PackageIndex): string
      requires Exists(p) && !p.Null?
    {
      if p.Import? then imports[p.importIndex].objectName else exports[p.exportIndex].objectName
    }

    /** The object, its outer, the outer's outer and so on; `None` when the chain is longer than `steps`. */
    function Walk(p: PackageIndex, steps: nat): (r: Option<seq<PackageIndex>>)
      requires OutersExist() && Exists(p)
      ensures r.Some? ==> forall x :: x in r.value ==> Exists(x) && !x.Null?
      ensures r.Some? ==> |r.value| <= steps && (p.Null? <==> r.value == [])
      decreases steps
    {
      if p.Null? then Some([])
      else if steps == 0 then None
      else
        var rest := Walk(Outer(p), steps - 1);
        if rest.None? then None else Some([p] + rest.value)
    }

    /** The names along a chain from its innermost object, outermost first, each after a separator. */
    function Join(chain: seq<PackageIndex>, separator: char): string
      requires forall x :: x in chain ==> Exists(x) && !x.Null?
    {
      if chain == [] then "" else Join(chain[1..], separator) + [separator] + Name(chain[0])
    }

    /** Package name and full object name along a non-empty chain. */
    function FullName(chain: seq<PackageIndex>, separator: char, ownName: string): (string, string)
      requires chain != [] && forall x :: x in chain ==> Exists(x) && !x.Null?
    {
      var root := chain[|chain| - 1];
      if root.Import? then (Name(root), Name(root) + Join(chain[..|chain| - 1], separator))
      else (ownName, ownName + Join(chain, separator))
    }
  }

  // ---- What remapping does to the tables ----

  function Remap(p: PackageIndex, remap: map<nat, nat>): PackageIndex {
    if p.Import? && p.importIndex in remap then Import(remap[p.importIndex]) else p
  }

  predicate Remappable(p: PackageIndex, remap: map<nat, nat>) {
    p.Import? ==> p.importIndex in remap
  }

  function RemapExport(e: ObjectExport, remap: map<nat, nat>): ObjectExport {
    e.(classIndex := Remap(e.classIndex, remap), superIndex := Remap(e.superIndex, remap),
       templateIndex := Remap(e.templateIndex, remap), outerIndex := Remap(e.outerIndex, remap))
  }

  predicate ExportRemappable(e: ObjectExport, remap: map<nat, nat>) {
    && Remappable(e.classIndex, remap) && Remappable(e.superIndex, remap)
    && Remappable(e.templateIndex, remap) && Remappable(e.outerIndex, remap)
  }

  function RemapImport(i: ObjectImport, remap: map<nat, nat>): ObjectImport {
    i.(outerIndex := Remap(i.outerIndex, remap))
  }

  /** Every import that a table refers to is in the remap. */
  ghost predicate AllRemappable(t: Tables, remap: map<nat, nat>) {
    && (forall e :: e in t.exports ==> ExportRemappable(e, remap))
    && (forall i :: i in t.imports ==> Remappable(i.outerIndex, remap))
    && (forall p :: p in t.dataResources ==> Remappable(p, remap))
    && (forall p :: p in t.preload ==> Remappable(p, remap))
  }

  /** `after` is `before` with every reference remapped. */
  ghost predicate ReferencesRemapped(before: Tables, after: Tables, remap: map<nat, nat>) {
    && |after.exports| == |before.exports| && |after.imports| == |before.imports|
    && |after.dataResources| == |before.dataResources| && |after.preload| == |before.preload|
    && (forall e :: 0 <= e < |before.exports| ==> after.exports[e] == RemapExport(before.exports[e], remap))
    && (forall i :: 0 <= i < |before.imports| ==> after.imports[i] == RemapImport(before.imports[i], remap))
    && (forall d :: 0 <= d < |before.dataResources| ==> after.dataResources[d] == Remap(before.dataResources[d], remap))
    && (forall k :: 0 <= k < |before.preload| ==> after.preload[k] == Remap(before.preload[k], remap))
  }

  /** The four references of an export follow the remap; its name and its runs in the flat table stay. */
  ghost predicate ReferencesFollow(before: ObjectExport, after: ObjectExport, remap: map<nat, nat>) {
    && after.classIndex == Remap(before.classIndex, remap) && after.superIndex == Remap(before.superIndex, remap)
    && after.templateIndex == Remap(before.templateIndex, remap)
    && after.outerIndex == Remap(before.outerIndex, remap)
    && after.objectName == before.objectName && after.firstDependency == before.firstDependency
    && after.serializeBeforeSerialize == before.serializeBeforeSerialize
    && after.createBeforeSerialize == before.createBeforeSerialize
    && after.serializeBeforeCreate == before.serializeBeforeCreate
    && after.createBeforeCreate == before.createBeforeCreate
  }

  /** The imports in the order of the plan, with a placeholder in each hole. */
  ghost predicate Reordered(before: seq<ObjectImport>, after: seq<ObjectImport>, order: seq<Option<nat>>) {
    && |after| == |order|
    && forall i :: 0 <= i < |order| ==>
         (order[i].Some? ==> order[i].value < |before| && after[i] == before[order[i].value]) &&
         (order[i].None? ==> after[i] == UNKNOWN_PACKAGE)
  }

  // ---- Dependencies in the flat table ----

  function Including(list: seq<PackageIndex>, known: seq<PackageIndex>, p: PackageIndex): seq<PackageIndex> {
    if p.Null? || p in known then list else list + [p]
  }

  /**
   * The lists with outer, super, class and template added where they are missing. A super missing from
   * create-before-create goes to serialize-before-serialize.
   */
  function Completed(item: ObjectExport, d: ExportDependencies): ExportDependencies {
    var created := Including(d.createBeforeCreate, d.createBeforeCreate, item.outerIndex);
    var serialized := Including(d.serializeBeforeSerialize, created, item.superIndex);
    var classed := Including(d.serializeBeforeCreate, d.serializeBeforeCreate, item.classIndex);
    var templated := Including(classed, classed, item.templateIndex);
    ExportDependencies(serialized, d.createBeforeSerialize, templated, created)
  }

  /** The lists of one export in the order of the table, and the export's indices into it when they start at `at`. */
  function FlattenDependencies(item: ObjectExport, d: ExportDependencies, at: nat): (ObjectExport, seq<PackageIndex>) {
    if d == NO_DEPENDENCIES then (item, [])
    else
      (item.(firstDependency := at,
             serializeBeforeSerialize := |d.serializeBeforeSerialize|,
             createBeforeSerialize := |d.createBeforeSerialize|,
             serializeBeforeCreate := |d.serializeBeforeCreate|,
             createBeforeCreate := |d.createBeforeCreate|),
       d.serializeBeforeSerialize + d.createBeforeSerialize + d.serializeBeforeCreate + d.createBeforeCreate)
  }

  ghost predicate Mentions(d: ExportDependencies, p: PackageIndex) {
    p in d.serializeBeforeSerialize || p in d.createBeforeSerialize || p in d.serializeBeforeCreate ||
      p in d.createBeforeCreate
  }

  ghost predicate SameReferences(a: ObjectExport, b: ObjectExport) {
    && a.objectName == b.objectName && a.classIndex == b.classIndex && a.superIndex == b.superIndex
    && a.templateIndex == b.templateIndex && a.outerIndex == b.outerIndex
  }

  /** The parts of a concatenation are found by adding up lengths. */
  lemma {:induction false} PartsOf(t: seq<PackageIndex>, a: seq<PackageIndex>, b: seq<PackageIndex>,
                                   c: seq<PackageIndex>, d: seq<PackageIndex>)
    ensures Slice(t + (a + b + c + d), |t|, |a|) == a
    ensures Slice(t + (a + b + c + d), |t| + |a|, |b|) == b
    ensures Slice(t + (a + b + c + d), |t| + |a| + |b|, |c|) == c
    ensures Slice(t + (a + b + c + d), |t| + |a| + |b| + |c|, |d|) == d
  {
    Associate(t, a, b, c, d);
    PartOf(t, a, b + c + d);
    PartOf(t + a, b, c + d);
    PartOf(t + a + b, c, d);
    PartOf(t + a + b + c, d, []);
  }

  lemma {:induction false} Associate(t: seq<PackageIndex>, a: seq<PackageIndex>, b: seq<PackageIndex>,
                                     c: seq<PackageIndex>, d: seq<PackageIndex>)
    ensures t + (a + b + c + d) == t + a + (b + c + d)
    ensures t + (a + b + c + d) == t + a + b + (c + d)
    ensures t + (a + b + c + d) == t + a + b + c + d
    ensures t + a + b + c + d == t + a + b + c + d + []
  {
    assert a + b + c + d == a + (b + c + d) == a + b + (c + d);
    assert t + (a + (b + c + d)) == t + a + (b + c + d);
    assert t + (a + b + (c + d)) == t + (a + b) + (c + d) == t + a + b + (c + d);
    assert t + a + b + (c + d) == t + a + b + c + d;
  }

  lemma {:induction false} PartOf(before: seq<PackageIndex>, part: seq<PackageIndex>, after: seq<PackageIndex>)
    ensures Slice(before + part + after, |before|, |part|) == part
  {
  }

  /** Reading back what was flattened to the end of the table. */
  lemma {:induction false} FlattenedLists(item: ObjectExport, d: ExportDependencies, table: seq<PackageIndex>)
    requires item.firstDependency == -1
    ensures var flat := FlattenDependencies(item, d, |table|);
      flat.0.InTable(table + flat.1) && flat.0.Lists(table + flat.1) == d
  {
    if d != NO_DEPENDENCIES {
      PartsOf(table, d.serializeBeforeSerialize, d.createBeforeSerialize, d.serializeBeforeCreate,
              d.createBeforeCreate);
    }
  }

  /** One of the first `n` exports has the object in its completed lists. */
  ghost predicate MentionedBy(exports: seq<ObjectExport>, all: seq<ExportDependencies>, n: nat, p: PackageIndex)
    requires n <= |exports| == |all|
  {
    exists e :: 0 <= e < n && Mentions(Completed(exports[e], all[e]), p)
  }

  lemma {:induction false} AddedAreMentioned(exports: seq<ObjectExport>, all: seq<ExportDependencies>, k: nat,
                                             initial: seq<PackageIndex>, before: seq<PackageIndex>,
                                             after: seq<PackageIndex>)
    requires k < |exports| == |all|
    requires after == before + FlattenDependencies(exports[k], Completed(exports[k], all[k]), |before|).1
    requires forall p :: p in before ==> p in initial || MentionedBy(exports, all, k, p)
    ensures forall p :: p in after ==> p in initial || MentionedBy(exports, all, k + 1, p)
  {
    forall p | p in after ensures p in initial || MentionedBy(exports, all, k + 1, p) {
      if p !in before {
        assert Mentions(Completed(exports[k], all[k]), p);
      }
    }
  }

  /** A longer table leaves the lists of earlier exports alone. */
  lemma {:induction false} ListsStay(item: ObjectExport, before: seq<PackageIndex>, after: seq<PackageIndex>)
    requires before <= after && item.InTable(before)
    ensures item.InTable(after) && item.Lists(after) == item.Lists(before)
  {
    if item.firstDependency != -1 {
      SliceStays(before, after, item.firstDependency, item.serializeBeforeSerialize);
      SliceStays(before, after, item.CreateBeforeSerializeStart(), item.createBeforeSerialize);
      SliceStays(before, after, item.SerializeBeforeCreateStart(), item.serializeBeforeCreate);
      SliceStays(before, after, item.CreateBeforeCreateStart(), item.createBeforeCreate);
    }
  }

  lemma {:induction false} SliceStays(before: seq<PackageIndex>, after: seq<PackageIndex>, start: int, count: int)
    requires before <= after && SliceExists(before, start, count)
    ensures SliceExists(after, start, count) && Slice(after, start, count) == Slice(before, start, count)
  {
    if count > 0 {
      assert after[start..start + count] == before[start..start + count];
    }
  }

  // ---- Full names ----

  function LowerChar(c: char): char {
    if 'A' <= c <= 'Z' then c - 'A' + 'a' else c
  }

  /** ASCII lower case. */
  function Lowered(s: string): string {
    seq(|s|, i requires 0 <= i < |s| => LowerChar(s[i]))
  }

  /** Letters 'A' to 'Z' become 'a' to 'z', and every other character stays. */
  ghost predicate IsLowered(s: string, t: string) {
    && |t| == |s|
    && (forall i :: 0 <= i < |s| && 'A' <= s[i] <= 'Z' ==> t[i] as int == s[i] as int + 32)
    && (forall i :: 0 <= i < |s| && !('A' <= s[i] <= 'Z') ==> t[i] == s[i])
  }

  lemma {:induction false} LoweredIsLower(s: string)
    ensures IsLowered(s, Lowered(s))
  {
    assert 'a' as int == 'A' as int + 32;
  }

  lemma {:induction false} JoinCons(t: Tables, p: PackageIndex, rest: seq<PackageIndex>, separator: char)
    requires forall x :: x in [p] + rest ==> t.Exists(x) && !x.Null?
    ensures forall x :: x in rest ==> t.Exists(x) && !x.Null?
    ensures t.Join([p] + rest, separator) == t.Join(rest, separator) + [separator] + t.Name(p)
  {
    assert ([p] + rest)[1..] == rest;
    forall x | x in rest ensures t.Exists(x) && !x.Null? {
      assert x in [p] + rest;
    }
  }

  lemma {:induction false} FullNameOfRoot(t: Tables, p: PackageIndex, separator: char, ownName: string)
    requires t.Exists(p) && !p.Null?
    ensures t.FullName([p], separator, ownName) ==
            if p.Import? then (t.Name(p), t.Name(p)) else (ownName, ownName + [separator] + t.Name(p))
  {
    var none: seq<PackageIndex> := [];
    assert [p][..0] == none && [p] + none == [p];
    JoinCons(t, p, none, separator);
    assert t.Join(none, separator) == "";
    assert t.Name(p) + "" == t.Name(p) && ownName + "" == ownName;
    Behind(ownName, "", [separator], t.Name(p));
  }

  lemma {:induction false} FullNameBehind(t: Tables, p: PackageIndex, rest: seq<PackageIndex>, separator: char,
                                          ownName: string)
    requires rest != [] && forall x :: x in [p] + rest ==> t.Exists(x) && !x.Null?
    ensures forall x :: x in rest ==> t.Exists(x) && !x.Null?
    ensures var outer := t.FullName(rest, separator, ownName);
      t.FullName([p] + rest, separator, ownName) == (outer.0, outer.1 + [separator] + t.Name(p))
  {
    var chain, root := [p] + rest, rest[|rest| - 1];
    assert chain[|chain| - 1] == root;
    JoinCons(t, p, rest, separator);
    if root.Import? {
      var front := rest[..|rest| - 1];
      assert chain[..|chain| - 1] == [p] + front;
      JoinCons(t, p, front, separator);
      Behind(t.Name(root), t.Join(front, separator), [separator], t.Name(p));
    } else {
      Behind(ownName, t.Join(rest, separator), [separator], t.Name(p));
    }
  }

  /**
   * Full names from the outside in: an import without outer has its own name, an export without outer comes behind the
   * package's name, and anything else comes behind the full name of its outer, in whose package it is.
   */
  lemma {:induction false} FullNameOfOuter(t: Tables, p: PackageIndex, steps: nat, separator: char, ownName: string)
    requires t.OutersExist() && t.Exists(p) && !p.Null? && t.Walk(p, steps).Some?
    ensures var full := t.FullName(t.Walk(p, steps).value, separator, ownName);
      && (t.Outer(p).Null? && p.Import? ==> full == (t.Name(p), t.Name(p)))
      && (t.Outer(p).Null? && p.Export? ==> full == (ownName, ownName + [separator] + t.Name(p)))
      && (!t.Outer(p).Null? ==>
            && steps > 0 && t.Walk(t.Outer(p), steps - 1).Some?
            && var outer := t.FullName(t.Walk(t.Outer(p), steps - 1).value, separator, ownName);
               full == (outer.0, outer.1 + [separator] + t.Name(p)))
  {
    var rest := t.Walk(t.Outer(p), steps - 1).value;
    assert t.Walk(p, steps).value == [p] + rest;
    if t.Outer(p).Null? {
      FullNameOfRoot(t, p, separator, ownName);
      assert [p] + rest == [p];
    } else {
      FullNameBehind(t, p, rest, separator, ownName);
    }
  }

  lemma {:induction false} Behind(a: string, b: string, c: string, d: string)
    ensures a + (b + c + d) == a + b + c + d
  {
  }

  class LegacyPackage {
    var imports: seq<ObjectImport>
    var exports: seq<ObjectExport>
    var dataResources: seq<PackageIndex>
    var preload: seq<PackageIndex>

    constructor (tables: Tables)
      ensures Contents() == tables
    {
      imports, exports, dataResources, preload := tables.imports, tables.exports, tables.dataResources, tables.preload;
    }

    ghost function Contents(): Tables
      reads this
    {
      Tables(imports, exports, dataResources, preload)
    }

    /** `remap_package_index`. */
    static method RemapPackageIndex(p: PackageIndex, remap: map<nat, nat>) returns (ok: bool, r: PackageIndex)
      ensures ok == Remappable(p, remap)
      ensures r == Remap(p, remap)
      ensures p.Import? && p.importIndex in remap ==> ok && r == Import(remap[p.importIndex])
      ensures p.Import? && p.importIndex !in remap ==> !ok
      ensures !p.Import? ==> ok && r == p
    {
      ok, r := true, p;
      if p.Import? {
        if p.importIndex in remap {
          r := Import(remap[p.importIndex]);
        } else {
          ok := false;
        }
      }
    }

    method RemapExports(remap: map<nat, nat>) returns (ok: bool)
      modifies `exports
      ensures ok <==> forall e :: e in old(exports) ==> ExportRemappable(e, remap)
      ensures ok ==> |exports| == |old(exports)| && forall e ::
        0 <= e < |exports| ==> exports[e] == RemapExport(old(exports[e]), remap)
    {
      for k := 0 to |exports|
        invariant |exports| == |old(exports)|
        invariant forall e ::
          0 <= e < k ==> ExportRemappable(old(exports[e]), remap) && exports[e] == RemapExport(old(exports[e]), remap)
        invariant forall e :: k <= e < |exports| ==> exports[e] == old(exports[e])
      {
        var item := exports[k];
        var c0, classIndex := RemapPackageIndex(item.classIndex, remap);
        var c1, superIndex := RemapPackageIndex(item.superIndex, remap);
        var c2, templateIndex := RemapPackageIndex(item.templateIndex, remap);
        var c3, outerIndex := RemapPackageIndex(item.outerIndex, remap);
        if !(c0 && c1 && c2 && c3) {
          assert item in old(exports) && !ExportRemappable(item, remap);
          return false;
        }
        item := item.(classIndex := classIndex, superIndex := superIndex, templateIndex := templateIndex,
                      outerIndex := outerIndex);
        exports := exports[k := item];
      }
      ok := true;
    }

    method RemapImports(remap: map<nat, nat>) returns (ok: bool)
      modifies `imports
      ensures ok <==> forall i :: i in old(imports) ==> Remappable(i.outerIndex, remap)
      ensures ok ==> |imports| == |old(imports)| && forall i ::
        0 <= i < |imports| ==> imports[i] == RemapImport(old(imports[i]), remap)
    {
      for k := 0 to |imports|
        invariant |imports| == |old(imports)|
        invariant forall i ::
          0 <= i < k ==>
          Remappable(old(imports[i]).outerIndex, remap) && imports[i] == RemapImport(old(imports[i]), remap)
        invariant forall i :: k <= i < |imports| ==> imports[i] == old(imports[i])
      {
        var outerIndex;
        ok, outerIndex := RemapPackageIndex(imports[k].outerIndex, remap);
        if !ok {
          assert imports[k] in old(imports);
          return;
        }
        imports := imports[k := imports[k].(outerIndex := outerIndex)];
      }
      ok := true;
    }

    /** A plain list of references. */
    static method RemapList(list: seq<PackageIndex>, remap: map<nat, nat>) returns (ok: bool, r: seq<PackageIndex>)
      ensures ok <==> forall p :: p in list ==> Remappable(p, remap)
      ensures ok ==> |r| == |list| && forall k :: 0 <= k < |list| ==> r[k] == Remap(list[k], remap)
    {
      r := list;
      for k := 0 to |list|
        invariant |r| == |list|
        invariant forall i :: 0 <= i < k ==> Remappable(list[i], remap) && r[i] == Remap(list[i], remap)
      {
        var p;
        ok, p := RemapPackageIndex(list[k], remap);
        if !ok {
          assert list[k] in list;
          return;
        }
        r := r[k := p];
      }
      ok := true;
    }

    /** `remap_legacy_import_references`: all references, or an error on the first that the remap does not know. */
    method RemapReferences(remap: map<nat, nat>) returns (ok: bool)
      modifies this
      ensures ok <==> AllRemappable(old(Contents()), remap)
      ensures ok ==> ReferencesRemapped(old(Contents()), Contents(), remap)
      ensures ok ==> forall e :: 0 <= e < |exports| ==> ReferencesFollow(old(exports[e]), exports[e], remap)
      ensures ok ==> forall i ::
        0 <= i < |imports| ==> imports[i].outerIndex == Remap(old(imports[i]).outerIndex, remap)
    {
      ok := RemapExports(remap);
      if ok {
        ok := RemapImports(remap);
      }
      if ok {
        ok, dataResources := RemapList(dataResources, remap);
      }
      if ok {
        ok, preload := RemapList(preload, remap);
      }
    }

    /** Imports in the order of a plan. */
    static method ReorderImports(current: seq<ObjectImport>, order: seq<Option<nat>>) returns (next: seq<ObjectImport>)
      requires forall i :: 0 <= i < |order| && order[i].Some? ==> order[i].value < |current|
      ensures Reordered(current, next, order)
    {
      next := [];
      for i := 0 to |order|
        invariant Reordered(current, next, order[..i])
      {
        next := next + [if order[i].Some? then current[order[i].value] else UNKNOWN_PACKAGE];
      }
      assert order[..|order|] == order;
    }

    /** `finalize_asset`: imports to their final positions, then every reference. */
    method FinalizeAsset(zenCount: nat, original: map<nat, nat>) returns (r: Result<ImportReorderPlan>)
      modifies this
      ensures r.Success? ==> PlanValid(r.value, |old(imports)|, zenCount, original)
      ensures r.Success? ==> Finalized(old(Contents()), Contents(), r.value)
      ensures r.Success? <==>
              && PositionsValid(|old(imports)|, zenCount, original)
              && |old(imports)| + Duplicates(original) <= USIZE_MAX
              && ImportsClosed(old(Contents()))
    {
      r := BuildImportReorderPlan(|imports|, zenCount, original);
      if r.Failure? {
        return;
      }
      var plan := r.value;
      ghost var before := Contents();
      forall i | 0 <= i < |plan.importOrder| && plan.importOrder[i].Some?
        ensures plan.importOrder[i].value < |imports| {
        PlannedImportExists(plan, |imports|, zenCount, original, i);
      }
      imports := ReorderImports(imports, plan.importOrder);
      ReorderedIsRemappable(before, imports, plan);
      var ok := RemapReferences(plan.importRemap);
      if !ok {
        r := Failure("Import was not preserved while rebuilding the import map");
      }
    }

    /**
     * `apply_standalone_dependencies_to_package`: each export's lists, completed by the objects it always needs, go
     * to the flat table, where reading them gives the completed lists; nothing else is added to the table.
     */
    method ApplyDependencies(all: seq<ExportDependencies>)
      requires |all| == |exports| && forall e :: 0 <= e < |exports| ==> exports[e].firstDependency == -1
      modifies `exports, `preload
      ensures |exports| == |old(exports)|
      ensures forall e :: 0 <= e < |exports| ==> SameReferences(old(exports[e]), exports[e])
      ensures forall e ::
        0 <= e < |exports| ==>
        exports[e].InTable(preload) && exports[e].Lists(preload) == Completed(old(exports[e]), all[e])
      ensures forall p :: p in preload ==> p in old(preload) || MentionedBy(old(exports), all, |exports|, p)
    {
      for k := 0 to |exports|
        invariant |exports| == |old(exports)|
        invariant forall p :: p in preload ==> p in old(preload) || MentionedBy(old(exports), all, k, p)
        invariant forall e :: 0 <= e < k ==> SameReferences(old(exports[e]), exports[e])
        invariant forall e ::
          0 <= e < k ==> exports[e].InTable(preload) && exports[e].Lists(preload) == Completed(old(exports[e]), all[e])
        invariant forall e :: k <= e < |exports| ==> exports[e] == old(exports[e])
      {
        ghost var before := preload;
        var (item, more) := FlattenDependencies(exports[k], Completed(exports[k], all[k]), |preload|);
        preload := preload + more;
        AddedAreMentioned(old(exports), all, k, old(preload), before, preload);
        FlattenedLists(exports[k], Completed(exports[k], all[k]), before);
        forall e | 0 <= e < k
          ensures exports[e].InTable(preload) && exports[e].Lists(preload) == exports[e].Lists(before) {
          ListsStay(exports[e], before, preload);
        }
        exports := exports[k := item];
      }
    }

    /** The object and its outers up to the outermost one. */
    method CollectChain(p: PackageIndex, ghost steps: nat) returns (chain: seq<PackageIndex>)
      requires Contents().OutersExist() && Contents().Exists(p) && Contents().Walk(p, steps).Some?
      ensures chain == Contents().Walk(p, steps).value
    {
      ghost var t := Contents();
      ghost var whole := t.Walk(p, steps).value;
      chain := [];
      var current := p;
      ghost var left := steps;
      while !current.Null?
        invariant t.Exists(current) && t.Walk(current, left).Some?
        invariant chain + t.Walk(current, left).value == whole
        decreases left
      {
        chain := chain + [current];
        current := if current.Import?
          then imports[current.importIndex].outerIndex else exports[current.exportIndex].outerIndex;
        left := left - 1;
      }
    }

    /** Appending the names along a chain, from its outermost object to its innermost. */
    method AppendNames(start: string, chain: seq<PackageIndex>, separator: char) returns (full: string)
      requires forall x :: x in chain ==> Contents().Exists(x) && !x.Null?
      ensures full == start + Contents().Join(chain, separator)
    {
      ghost var t := Contents();
      full := start;
      var k := |chain|;
      while k > 0
        invariant 0 <= k <= |chain|
        invariant full == start + t.Join(chain[k..], separator)
      {
        k := k - 1;
        assert chain[k..][1..] == chain[k + 1..];
        assert chain[k] in chain;
        var name := if chain[k].Import?
          then imports[chain[k].importIndex].objectName else exports[chain[k].exportIndex].objectName;
        full := full + [separator] + name;
      }
      assert chain[0..] == chain;
    }

    /**
     * `get_package_object_full_name`: package name and full name of an object whose chain of outers ends within
     * `steps` objects.
     */
    method GetFullName(p: PackageIndex, separator: char, lowercase: bool, ownName: string, ghost steps: nat)
      returns (packageName: string, fullName: string)
      requires !p.Null? && Contents().OutersExist() && Contents().Exists(p)
      requires Contents().Walk(p, steps).Some?
      ensures var full := Contents().FullName(Contents().Walk(p, steps).value, separator, ownName);
        packageName == full.0 && (if lowercase then IsLowered(full.1, fullName) else fullName == full.1)
      ensures !lowercase && Contents().Outer(p).Null? ==>
        if p.Import? then packageName == fullName == Contents().Name(p)
        else packageName == ownName && fullName == ownName + [separator] + Contents().Name(p)
      ensures !lowercase && !Contents().Outer(p).Null? ==>
        && steps > 0 && Contents().Walk(Contents().Outer(p), steps - 1).Some?
        && var outer := Contents().FullName(Contents().Walk(Contents().Outer(p), steps - 1).value, separator, ownName);
           packageName == outer.0 && fullName == outer.1 + [separator] + Contents().Name(p)
    {
      FullNameOfOuter(Contents(), p, steps, separator, ownName);
      var chain := CollectChain(p, steps);
      var root := chain[|chain| - 1];
      assert root in chain;
      if root.Import? {
        packageName := imports[root.importIndex].objectName;
        fullName := AppendNames(packageName, chain[..|chain| - 1], separator);
      } else {
        packageName := ownName;
        fullName := AppendNames(packageName, chain, separator);
      }
      if lowercase {
        LoweredIsLower(fullName);
        fullName := Lowered(fullName);
      }
    }
  }

  /** Every reference to an import names one. */
  ghost predicate ImportsClosed(t: Tables) {
    && (forall e :: e in t.exports ==>
          && Names(e.classIndex, |t.imports|) && Names(e.superIndex, |t.imports|)
          && Names(e.templateIndex, |t.imports|) && Names(e.outerIndex, |t.imports|))
    && (forall i :: i in t.imports ==> Names(i.outerIndex, |t.imports|))
    && (forall p :: p in t.dataResources ==> Names(p, |t.imports|))
    && (forall p :: p in t.preload ==> Names(p, |t.imports|))
  }

  /** The reference is not to an import, or to one of the first `n`. */
  predicate Names(p: PackageIndex, n: nat) {
    p.Import? ==> p.importIndex < n
  }

  /** `after` is `before` with its imports in the order of the plan and every reference following them. */
  ghost predicate Finalized(before: Tables, after: Tables, plan: ImportReorderPlan) {
    exists reordered ::
      && Reordered(before.imports, reordered, plan.importOrder)
      && ReferencesRemapped(before.(imports := reordered), after, plan.importRemap)
  }

  lemma {:induction false} PlannedImportExists(plan: ImportReorderPlan, current: nat, zenCount: nat,
                                               original: map<nat, nat>, i: nat)
    requires PositionsValid(current, zenCount, original) && PlanValid(plan, current, zenCount, original)
    requires i < |plan.importOrder| && plan.importOrder[i].Some?
    ensures plan.importOrder[i].value < current
  {
    if i in original {
      assert plan.importOrder[i] == Some(original[i]);
    } else {
      var c := plan.importOrder[i].value;
      assert c in plan.importRemap;
    }
  }

  /** The plan's remap knows exactly the existing imports, and reordering loses none of them. */
  lemma {:induction false} ReorderedIsRemappable(before: Tables, reordered: seq<ObjectImport>, plan: ImportReorderPlan)
    requires EveryImportPlaced(plan, |before.imports|)
    requires Reordered(before.imports, reordered, plan.importOrder)
    ensures AllRemappable(before.(imports := reordered), plan.importRemap) <==> ImportsClosed(before)
  {
    forall p ensures Remappable(p, plan.importRemap) <==> Names(p, |before.imports|) {
    }
    forall i | i in before.imports ensures i in reordered {
      var c :| 0 <= c < |before.imports| && before.imports[c] == i;
      assert reordered[plan.importRemap[c]] == i;
    }
    forall i | i in reordered ensures i in before.imports || i == UNKNOWN_PACKAGE {
      var k :| 0 <= k < |reordered| && reordered[k] == i;
      assert plan.importOrder[k].Some? ==> i == before.imports[plan.importOrder[k].value];
    }
  }

  // ---- Object paths survive the rebuild ----

  function RemapAll(chain: seq<PackageIndex>, remap: map<nat, nat>): seq<PackageIndex> {
    seq(|chain|, i requires 0 <= i < |chain| => Remap(chain[i], remap))
  }

  /** Under its new index each object has the same name and, under its new index, the same outer. */
  ghost predicate Mirrors(before: Tables, after: Tables, remap: map<nat, nat>) {
    forall p :: before.Exists(p) && !p.Null? ==>
      && after.Exists(Remap(p, remap)) && Remap(p, remap).Import? == p.Import? && !Remap(p, remap).Null?
      && after.Name(Remap(p, remap)) == before.Name(p)
      && after.Outer(Remap(p, remap)) == Remap(before.Outer(p), remap)
  }

  lemma {:induction false} FinalizedMirrors(before: Tables, after: Tables, plan: ImportReorderPlan)
    requires EveryImportPlaced(plan, |before.imports|) && Finalized(before, after, plan)
    ensures Mirrors(before, after, plan.importRemap)
  {
    var reordered :| Reordered(before.imports, reordered, plan.importOrder) &&
      ReferencesRemapped(before.(imports := reordered), after, plan.importRemap);
    forall p | before.Exists(p) && !p.Null?
      ensures after.Exists(Remap(p, plan.importRemap)) && Remap(p, plan.importRemap).Import? == p.Import? &&
              !Remap(p, plan.importRemap).Null?
      ensures after.Name(Remap(p, plan.importRemap)) == before.Name(p)
      ensures after.Outer(Remap(p, plan.importRemap)) == Remap(before.Outer(p), plan.importRemap)
    {
      if p.Import? {
        var c := p.importIndex;
        assert c in plan.importRemap;
        assert reordered[plan.importRemap[c]] == before.imports[c];
        assert after.imports[plan.importRemap[c]] == RemapImport(reordered[plan.importRemap[c]], plan.importRemap);
      } else {
        assert after.exports[p.exportIndex] == RemapExport(before.exports[p.exportIndex], plan.importRemap);
      }
    }
  }

  lemma {:induction false} OutersStillExist(before: Tables, after: Tables, plan: ImportReorderPlan)
    requires EveryImportPlaced(plan, |before.imports|) && Finalized(before, after, plan) && before.OutersExist()
    ensures after.OutersExist()
  {
    FinalizedMirrors(before, after, plan);
    var reordered :| Reordered(before.imports, reordered, plan.importOrder) &&
      ReferencesRemapped(before.(imports := reordered), after, plan.importRemap);
    forall i | 0 <= i < |after.imports| ensures after.Exists(after.imports[i].outerIndex) {
      assert after.imports[i] == RemapImport(reordered[i], plan.importRemap);
      if plan.importOrder[i].Some? {
        assert before.Exists(before.imports[plan.importOrder[i].value].outerIndex);
      } else {
        assert reordered[i] == UNKNOWN_PACKAGE;
      }
    }
    forall e | 0 <= e < |after.exports| ensures after.Exists(after.exports[e].outerIndex) {
      assert after.exports[e] == RemapExport(before.exports[e], plan.importRemap);
      assert before.Exists(before.exports[e].outerIndex);
    }
  }

  /** The walk outwards takes the same number of steps and meets the same objects under their new indices. */
  lemma {:induction false} WalkMirrored(before: Tables, after: Tables, remap: map<nat, nat>, p: PackageIndex,
                                        steps: nat)
    requires before.OutersExist() && after.OutersExist() && Mirrors(before, after, remap)
    requires before.Exists(p)
    ensures after.Exists(Remap(p, remap))
    ensures before.Walk(p, steps).None? ==> after.Walk(Remap(p, remap), steps).None?
    ensures before.Walk(p, steps).Some? ==>
      after.Walk(Remap(p, remap), steps) == Some(RemapAll(before.Walk(p, steps).value, remap))
    decreases steps
  {
    assert RemapAll([], remap) == [];
    OuterMirrored(before, after, remap, p);
    if !p.Null? && steps > 0 {
      WalkMirrored(before, after, remap, before.Outer(p), steps - 1);
      if before.Walk(p, steps).Some? {
        RemapAllCons(p, before.Walk(before.Outer(p), steps - 1).value, remap);
      }
    }
  }

  lemma {:induction false} RemapAllCons(p: PackageIndex, rest: seq<PackageIndex>, remap: map<nat, nat>)
    ensures RemapAll([p] + rest, remap) == [Remap(p, remap)] + RemapAll(rest, remap)
  {
  }

  /** One step outwards. */
  lemma {:induction false} OuterMirrored(before: Tables, after: Tables, remap: map<nat, nat>, p: PackageIndex)
    requires before.OutersExist() && after.OutersExist() && Mirrors(before, after, remap) && before.Exists(p)
    ensures after.Exists(Remap(p, remap)) && Remap(p, remap).Null? == p.Null?
    ensures !p.Null? ==> before.Exists(before.Outer(p)) && after.Outer(Remap(p, remap)) == Remap(before.Outer(p), remap)
  {
  }

  lemma {:induction false} JoinMirrored(before: Tables, after: Tables, remap: map<nat, nat>, chain: seq<PackageIndex>,
                                        separator: char)
    requires Mirrors(before, after, remap)
    requires forall x :: x in chain ==> before.Exists(x) && !x.Null?
    ensures forall x :: x in RemapAll(chain, remap) ==> after.Exists(x) && !x.Null?
    ensures after.Join(RemapAll(chain, remap), separator) == before.Join(chain, separator)
  {
    if chain != [] {
      JoinMirrored(before, after, remap, chain[1..], separator);
      assert RemapAll(chain, remap)[1..] == RemapAll(chain[1..], remap);
      assert RemapAll(chain, remap) == [Remap(chain[0], remap)] + RemapAll(chain[1..], remap);
    }
  }

  lemma {:induction false} FullNameMirrored(before: Tables, after: Tables, remap: map<nat, nat>,
                                            chain: seq<PackageIndex>, separator: char, ownName: string)
    requires Mirrors(before, after, remap)
    requires chain != [] && forall x :: x in chain ==> before.Exists(x) && !x.Null?
    ensures forall x :: x in RemapAll(chain, remap) ==> after.Exists(x) && !x.Null?
    ensures after.FullName(RemapAll(chain, remap), separator, ownName) == before.FullName(chain, separator, ownName)
  {
    var mapped, front := RemapAll(chain, remap), chain[..|chain| - 1];
    var root := chain[|chain| - 1];
    assert root in chain && mapped[|mapped| - 1] == Remap(root, remap);
    JoinMirrored(before, after, remap, chain, separator);
    JoinMirrored(before, after, remap, front, separator);
    assert mapped[..|mapped| - 1] == RemapAll(front, remap);
  }

  /**
   * After the rebuild every object reference leads, in the same number of steps, to the same full name: an object's
   * path does not depend on where the import map puts its parts.
   */
  lemma {:induction false} FullNamePreserved(before: Tables, after: Tables, plan: ImportReorderPlan, p: PackageIndex,
                                             steps: nat, separator: char, ownName: string)
    requires EveryImportPlaced(plan, |before.imports|) && Finalized(before, after, plan)
    requires before.OutersExist() && before.Exists(p) && !p.Null?
    ensures after.OutersExist() && after.Exists(Remap(p, plan.importRemap))
    ensures after.Walk(Remap(p, plan.importRemap), steps).Some? <==> before.Walk(p, steps).Some?
    ensures before.Walk(p, steps).Some? ==>
      after.FullName(after.Walk(Remap(p, plan.importRemap), steps).value, separator, ownName) ==
      before.FullName(before.Walk(p, steps).value, separator, ownName)
  {
    FinalizedMirrors(before, after, plan);
    OutersStillExist(before, after, plan);
    WalkMirrored(before, after, plan.importRemap, p, steps);
    if before.Walk(p, steps).Some? {
      FullNameMirrored(before, after, plan.importRemap, before.Walk(p, steps).value, separator, ownName);
    }
  }
}
