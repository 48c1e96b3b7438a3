/** Resolved imports entered into the legacy import map: one entry for each object, behind its outer. */
module ImportTrees {
  import opened Package
  import opened PackageNames

  /** `ResolvedZenImport`: an object with the chain of objects it lies in. */
  datatype ResolvedImport = ResolvedImport(classPackage: string, className: string, objectName: string,
                                           outer: Option<ResolvedImport>) {
    /** The object and everything it lies in. */
    ghost predicate Within(t: ResolvedImport) {
      this == t || (outer.Some? && outer.value.Within(t))
    }

    /** A name along the chain that cannot be stored. */
    ghost predicate NameOverflows() {
      || Overflows(classPackage) || Overflows(className) || Overflows(objectName)
      || (outer.Some? && outer.value.NameOverflows())
    }

    ghost function Depth(): nat {
      if outer.Some? then outer.value.Depth() + 1 else 0
    }

    /** What lies around an object is no deeper than it. */
    lemma {:induction false} WithinIsShallower(t: ResolvedImport)
      requires Within(t)
      ensures t.Depth() <= Depth()
      ensures !t.NameOverflows() || NameOverflows()
    {
      if this != t {
        outer.value.WithinIsShallower(t);
      }
    }

    /** Names of the object and of what it lies in, innermost first. */
    ghost function Path(): seq<string> {
      [objectName] + if outer.Some? then outer.value.Path() else []
    }
  }

  /** `FObjectImport`; the outer of an import is null or another import. */
  datatype ImportEntry = ImportEntry(classPackage: MinimalName, className: MinimalName, outer: Option<nat>,
                                     objectName: MinimalName)

  ghost predicate NameIs(names: seq<string>, m: MinimalName, name: string) {
    m.index < |names| && NameOf(names, m) == name
  }

  /** Entry `i` stands for tree `i`: its names, and an outer with a smaller index. */
  ghost predicate Spells(names: seq<string>, imports: seq<ImportEntry>, trees: seq<ResolvedImport>, i: nat)
    requires i < |imports| == |trees|
  {
    && NameIs(names, imports[i].classPackage, trees[i].classPackage)
    && NameIs(names, imports[i].className, trees[i].className)
    && NameIs(names, imports[i].objectName, trees[i].objectName)
    && OuterIs(imports[i].outer, trees, i)
  }

  ghost predicate OuterIs(outer: Option<nat>, trees: seq<ResolvedImport>, i: nat)
    requires i < |trees|
  {
    match trees[i].outer
    case None => outer.None?
    case Some(t) => outer.Some? && outer.value < i && trees[outer.value] == t
  }

  lemma {:induction false} SpellsStays(names: seq<string>, names': seq<string>, imports: seq<ImportEntry>,
                                       imports': seq<ImportEntry>, trees: seq<ResolvedImport>,
                                       trees': seq<ResolvedImport>, i: nat)
    requires i < |imports| == |trees| && |imports'| == |trees'| && Spells(names, imports, trees, i)
    requires names <= names' && imports <= imports' && trees <= trees'
    ensures Spells(names', imports', trees', i)
  {
    EarlierNamesStay(names, names', imports[i].classPackage);
    EarlierNamesStay(names, names', imports[i].className);
    EarlierNamesStay(names, names', imports[i].objectName);
  }

  /** The names that following outers from an import gives, innermost first. */
  ghost function PathFrom(names: seq<string>, imports: seq<ImportEntry>, trees: seq<ResolvedImport>, i: nat):
    seq<string>
    requires |imports| == |trees| && i < |imports| && forall k ::
      0 <= k < |imports| ==> Spells(names, imports, trees, k)
    decreases i
  {
    assert Spells(names, imports, trees, i);
    [NameOf(names, imports[i].objectName)] + if imports[i].outer.Some?
      then PathFrom(names, imports, trees, imports[i].outer.value) else []
  }

  /** They are the names of the resolved import. */
  lemma {:induction false} PathIsTreePath(names: seq<string>, imports: seq<ImportEntry>, trees: seq<ResolvedImport>,
                                          i: nat)
    requires |imports| == |trees| && i < |imports| && forall k ::
      0 <= k < |imports| ==> Spells(names, imports, trees, k)
    ensures PathFrom(names, imports, trees, i) == trees[i].Path()
    decreases i
  {
    assert Spells(names, imports, trees, i);
    if imports[i].outer.Some? {
      PathIsTreePath(names, imports, trees, imports[i].outer.value);
    }
  }

  ghost predicate AllSpelled(names: seq<string>, imports: seq<ImportEntry>, trees: seq<ResolvedImport>) {
    |imports| == |trees| && forall i: nat :: i < |imports| ==> Spells(names, imports, trees, i)
  }

  /** The lookup finds each tree at its one place. */
  ghost predicate Indexed(lookup: map<ResolvedImport, nat>, trees: seq<ResolvedImport>) {
    && (forall t :: t in lookup ==> lookup[t] < |trees| && trees[lookup[t]] == t)
    && (forall i :: 0 <= i < |trees| ==> trees[i] in lookup && lookup[trees[i]] == i)
  }

  ghost predicate Storable(trees: seq<ResolvedImport>) {
    forall t :: t in trees ==> !t.NameOverflows()
  }

  lemma {:induction false} SpelledWithMoreNames(names: seq<string>, names': seq<string>, imports: seq<ImportEntry>,
                                                trees: seq<ResolvedImport>)
    requires AllSpelled(names, imports, trees) && names <= names'
    ensures AllSpelled(names', imports, trees)
  {
    forall i: nat | i < |imports| ensures Spells(names', imports, trees, i) {
      SpellsStays(names, names', imports, imports, trees, trees, i);
    }
  }

  lemma {:induction false} SpelledWithEntry(names: seq<string>, imports: seq<ImportEntry>, trees: seq<ResolvedImport>,
                                            e: ImportEntry, t: ResolvedImport)
    requires AllSpelled(names, imports, trees)
    requires Spells(names, imports + [e], trees + [t], |imports|)
    ensures AllSpelled(names, imports + [e], trees + [t])
  {
    forall i: nat | i < |imports| + 1 ensures Spells(names, imports + [e], trees + [t], i) {
      if i < |imports| {
        SpellsStays(names, names, imports, imports + [e], trees, trees + [t], i);
      }
    }
  }

  lemma {:induction false} IndexedWithEntry(lookup: map<ResolvedImport, nat>, trees: seq<ResolvedImport>,
                                            t: ResolvedImport)
    requires Indexed(lookup, trees) && t !in lookup
    ensures Indexed(lookup[t := |trees|], trees + [t])
  {
  }

  /** The parts of the asset builder that imports are entered into. */
  class ImportMapBuilder {
    const nameMap: NameMap
    var imports: seq<ImportEntry>
    var lookup: map<ResolvedImport, nat>
    ghost var trees: seq<ResolvedImport>

    /** One entry per tree, found by its tree. */
    ghost predicate Valid()
      reads this, nameMap
    {
      nameMap.Valid() && Indexed(lookup, trees) && AllSpelled(nameMap.names, imports, trees) && Storable(trees)
    }

    constructor (nameMap: NameMap)
      requires nameMap.Valid()
      ensures Valid() && trees == [] && this.nameMap == nameMap
    {
      this.nameMap := nameMap;
      imports, lookup, trees := [], map[], [];
    }

    /** The three names of an entry. */
    method StoreNames(import_: ResolvedImport) returns (r: Result<(MinimalName, MinimalName, MinimalName)>)
      requires nameMap.Valid()
      modifies nameMap
      ensures nameMap.Valid() && old(nameMap.names) <= nameMap.names
      ensures r.Success? <==>
        !Overflows(import_.classPackage) && !Overflows(import_.className) && !Overflows(import_.objectName)
      ensures r.Success? ==>
        && NameIs(nameMap.names, r.value.0, import_.classPackage) && NameIs(nameMap.names, r.value.1, import_.className)
        && NameIs(nameMap.names, r.value.2, import_.objectName)
    {
      var classPackage := nameMap.Store(import_.classPackage);
      if classPackage.Failure? {
        return Failure(classPackage.error);
      }
      ghost var first := nameMap.names;
      var className := nameMap.Store(import_.className);
      if className.Failure? {
        return Failure(className.error);
      }
      ghost var second := nameMap.names;
      EarlierNamesStay(first, second, classPackage.value);
      var objectName := nameMap.Store(import_.objectName);
      if objectName.Failure? {
        return Failure(objectName.error);
      }
      EarlierNamesStay(second, nameMap.names, classPackage.value);
      EarlierNamesStay(second, nameMap.names, className.value);
      r := Success((classPackage.value, className.value, objectName.value));
    }

    /**
     * `find_or_add_resolved_import`: the entry for the import, added behind the entries of what it lies in unless it is
     * there. Entries that exist stay, and only the import and what it lies in are added.
     */
    method FindOrAdd(import_: ResolvedImport) returns (r: Result<nat>)
      requires Valid()
      modifies this, nameMap
      ensures Valid() && old(imports) <= imports && old(trees) <= trees && old(nameMap.names) <= nameMap.names
      ensures r.Success? <==> !import_.NameOverflows()
      ensures r.Success? ==> r.value < |imports| && trees[r.value] == import_
      ensures forall i :: |old(trees)| <= i < |trees| ==> import_.Within(trees[i])
      ensures import_ in old(lookup) ==> imports == old(imports) && r == Success(old(lookup)[import_])
      decreases import_
    {
      if import_ in lookup {
        assert import_ in trees;
        return Success(lookup[import_]);
      }
      var outer: Option<nat> := None;
      if import_.outer.Some? {
        var found := FindOrAdd(import_.outer.value);
        if found.Failure? {
          return found;
        }
        outer := Some(found.value);
      }
      StillMissing(import_, old(lookup), old(trees));
      r := AddEntry(import_, outer);
    }

    /** Adding what an import lies in has not added the import. */
    lemma {:induction false} StillMissing(import_: ResolvedImport, lookup': map<ResolvedImport, nat>,
                                          trees': seq<ResolvedImport>)
      requires Valid() && Indexed(lookup', trees') && import_ !in lookup' && trees' <= trees
      requires forall i :: |trees'| <= i < |trees| ==> import_.outer.Some? && import_.outer.value.Within(trees[i])
      ensures import_ !in lookup
    {
      forall i | 0 <= i < |trees'| ensures trees[i] in lookup' {
        assert trees'[i] == trees[i];
      }
      if import_ in lookup && lookup[import_] >= |trees'| {
        import_.outer.value.WithinIsShallower(import_);
        assert false;
      }
    }

    /** The names of the import, and its entry behind all others. */
    method AddEntry(import_: ResolvedImport, outer: Option<nat>) returns (r: Result<nat>)
      requires Valid() && import_ !in lookup && (import_.outer.Some? ==> !import_.outer.value.NameOverflows())
      requires OuterIs(outer, trees + [import_], |trees|)
      modifies this, nameMap
      ensures Valid() && old(imports) <= imports && old(trees) <= trees && old(nameMap.names) <= nameMap.names
      ensures r.Success? <==> !import_.NameOverflows()
      ensures r.Success? ==> r.value < |imports| && trees[r.value] == import_
      ensures trees == if r.Success? then old(trees) + [import_] else old(trees)
    {
      ghost var names' := nameMap.names;
      var names := StoreNames(import_);
      SpelledWithMoreNames(names', nameMap.names, imports, trees);
      if names.Failure? {
        return Failure(names.error);
      }
      var entry := ImportEntry(names.value.0, names.value.1, outer, names.value.2);
      SpelledWithEntry(nameMap.names, imports, trees, entry, import_);
      IndexedWithEntry(lookup, trees, import_);
      imports := imports + [entry];
      lookup := lookup[import_ := |imports| - 1];
      trees := trees + [import_];
      r := Success(|imports| - 1);
    }
  }

  /** Each import so far has its index. */
  ghost predicate Entered(trees: seq<ResolvedImport>, resolved: seq<ResolvedImport>, indices: seq<nat>) {
    |indices| <= |resolved| && forall k: nat :: k < |indices| ==> EnteredAt(trees, resolved[k], indices[k])
  }

  ghost predicate EnteredAt(trees: seq<ResolvedImport>, t: ResolvedImport, i: nat) {
    i < |trees| && trees[i] == t
  }

  lemma {:induction false} EnteredMore(trees: seq<ResolvedImport>, trees': seq<ResolvedImport>,
                                       resolved: seq<ResolvedImport>, indices: seq<nat>, index: nat)
    requires Entered(trees, resolved, indices) && trees <= trees' && |indices| < |resolved| &&
             EnteredAt(trees', resolved[|indices|], index)
    ensures Entered(trees', resolved, indices + [index])
  {
    var indices' := indices + [index];
    forall k: nat | k < |indices'| ensures EnteredAt(trees', resolved[k], indices'[k]) {
      if k < |indices| {
        assert EnteredAt(trees, resolved[k], indices[k]);
      }
    }
  }

  lemma {:induction false} IndexedDistinct(lookup: map<ResolvedImport, nat>, trees: seq<ResolvedImport>)
    requires Indexed(lookup, trees)
    ensures Distinct(trees)
  {
    forall i, j | 0 <= i < j < |trees| ensures trees[i] != trees[j] {
      assert lookup[trees[i]] == i && lookup[trees[j]] == j;
    }
  }

  /** Imports entered one after the other: each gets the index of its tree, and no tree is entered twice. */
  method EnterImports(builder: ImportMapBuilder, resolved: seq<ResolvedImport>) returns (r: Result<seq<nat>>)
    requires builder.Valid()
    modifies builder, builder.nameMap
    ensures builder.Valid() && Distinct(builder.trees) && old(builder.trees) <= builder.trees
    ensures r.Success? <==> forall k :: 0 <= k < |resolved| ==> !resolved[k].NameOverflows()
    ensures r.Success? ==> |r.value| == |resolved| && Entered(builder.trees, resolved, r.value)
  {
    var indices: seq<nat> := [];
    for k := 0 to |resolved|
      invariant builder.Valid() && old(builder.trees) <= builder.trees
      invariant |indices| == k && Entered(builder.trees, resolved, indices)
      invariant forall j :: 0 <= j < k ==> !resolved[j].NameOverflows()
    {
      ghost var before := builder.trees;
      var index := builder.FindOrAdd(resolved[k]);
      if index.Failure? {
        IndexedDistinct(builder.lookup, builder.trees);
        return Failure(index.error);
      }
      EnteredMore(before, builder.trees, resolved, indices, index.value);
      indices := indices + [index.value];
    }
    IndexedDistinct(builder.lookup, builder.trees);
    r := Success(indices);
  }
}
