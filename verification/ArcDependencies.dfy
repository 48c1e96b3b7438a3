/** Rebuilding the dependencies of exports from export bundles and the arcs between them. */
module ArcDependencies {
  import opened Package
  import opened ExportBundles

  /** Another package that legacy arcs come from: its bundles, and the import made for each of its exports. */
  datatype ImportedPackage =
    ImportedPackage(headers: seq<BundleHeader>, entries: seq<DepNode>, importOf: map<nat, nat>)
  {
    ghost predicate Valid() {
      && headers != []
      && (forall b :: 0 <= b < |headers| ==> headers[b].entryCount > 0 && headers[b].End() <= |entries|)
      && (forall e :: e in entries ==> e.target.Export?)
    }

    /** The last entry of a bundle, where -1 means the last bundle. */
    function LastEntry(from: int): DepNode
      requires Valid() && -1 <= from < |headers|
    {
      entries[headers[if from == -1 then |headers| - 1 else from].End() - 1]
    }
  }

  /** What the rebuild reads; an imported package that cannot be looked up is `None`. */
  datatype ArcData = ArcData(
    exportCount: nat,
    headers: seq<BundleHeader>,
    entries: seq<DepNode>,
    internalArcs: seq<BundleArc>,
    importArcs: seq<ImportArc>,
    legacyContainer: bool,
    legacyArcs: seq<seq<BundleArc>>,
    imported: seq<Option<ImportedPackage>>,
    importPosition: map<nat, nat>)
  {
    ghost predicate Valid() {
      && (forall b :: 0 <= b < |headers| ==> headers[b].entryCount > 0 && headers[b].End() <= |entries|)
      && (forall e :: e in entries ==> e.target.Export? && e.target.exportIndex < exportCount)
      && (forall a :: a in internalArcs ==> 0 <= a.from < |headers| && a.to < |headers|)
      && (forall a :: a in importArcs ==> a.to < |headers| && a.fromImport in importPosition)
      && |legacyArcs| == |imported|
      && (forall p :: 0 <= p < |imported| && imported[p].Some? ==> imported[p].value.Valid())
      && (forall p, a :: 0 <= p < |imported| && imported[p].Some? && a in legacyArcs[p] ==>
            -1 <= a.from < |imported[p].value.headers| && a.to < |headers|)
    }

    function First(b: nat): DepNode
      requires Valid() && b < |headers|
    {
      entries[headers[b].firstEntry]
    }

    function Last(b: nat): DepNode
      requires Valid() && b < |headers|
    {
      entries[headers[b].End() - 1]
    }

    function ImportLink(a: ImportArc): (DepNode, DepNode)
      requires Valid() && a.to < |headers| && a.fromImport in importPosition
    {
      (DepNode(Import(importPosition[a.fromImport]), a.fromCommand), First(a.to))
    }

    // The links that give rise to dependencies.

    ghost predicate LinkInBundle(b: nat, u: DepNode, v: DepNode)
      requires Valid() && b < |headers|
    {
      exists i, j ::
        headers[b].firstEntry <= i < j < headers[b].End() && j == i + 1 && u == entries[i] && v == entries[j]
    }

    ghost predicate LinkByArc(a: BundleArc, u: DepNode, v: DepNode)
      requires Valid() && 0 <= a.from < |headers| && a.to < |headers|
    {
      u == Last(a.from) && v == First(a.to)
    }

    ghost predicate LinkByImport(a: ImportArc, u: DepNode, v: DepNode)
      requires Valid() && a.to < |headers| && a.fromImport in importPosition
    {
      (u, v) == ImportLink(a)
    }

    ghost predicate LinkByLegacyArc(p: nat, a: BundleArc, u: DepNode, v: DepNode)
      requires Valid() && p < |imported| && a in legacyArcs[p]
    {
      && imported[p].Some?
      && var last := imported[p].value.LastEntry(a.from);
      && last.target.exportIndex in imported[p].value.importOf
      && u == DepNode(Import(imported[p].value.importOf[last.target.exportIndex]), last.command)
      && v == First(a.to)
    }

    /** Bundles of a legacy container also wait for the bundle before them. */
    ghost predicate IsArc(a: BundleArc) {
      || a in internalArcs
      || (legacyContainer && 1 <= a.to < |headers| && a.from == a.to - 1)
    }

    ghost predicate Link(u: DepNode, v: DepNode)
      requires Valid()
    {
      || (exists b :: 0 <= b < |headers| && LinkInBundle(b, u, v))
      || (exists a :: IsArc(a) && LinkByArc(a, u, v))
      || (exists a :: a in importArcs && LinkByImport(a, u, v))
      || (legacyContainer && exists p, a :: 0 <= p < |imported| && a in legacyArcs[p] && LinkByLegacyArc(p, a, u, v))
    }
  }

  /** A command waiting for another command of its own export is an error, except Serialize waiting for Create. */
  predicate BadSelfLink(u: DepNode, v: DepNode) {
    u.target == v.target && !(u.command.Create? && v.command.Serialize?)
  }

  type Links = seq<(DepNode, DepNode)>

  /** The dependencies in `after` are those in `before` and those of the links. */
  ghost predicate Extended(before: seq<ExportDependencies>, after: seq<ExportDependencies>, links: Links) {
    && |after| == |before|
    && forall u, v :: Listed(after, u, v) <==> Listed(before, u, v) || ((u, v) in links && u.target != v.target)
  }

  ghost predicate NoBadLink(links: Links) {
    forall u, v :: (u, v) in links ==> !BadSelfLink(u, v)
  }

  lemma {:induction false} ExtendedTwice(a: seq<ExportDependencies>, b: seq<ExportDependencies>,
                                         c: seq<ExportDependencies>, first: Links, second: Links)
    requires Extended(a, b, first) && Extended(b, c, second)
    ensures Extended(a, c, first + second)
  {
    forall u, v ensures Listed(c, u, v) <==> Listed(a, u, v) || ((u, v) in first + second && u.target != v.target) {
      assert (u, v) in first + second <==> (u, v) in first || (u, v) in second;
    }
  }

  /** `add_export_dependency`. */
  method AddDependency(all: seq<ExportDependencies>, u: DepNode, v: DepNode)
    returns (ok: bool, next: seq<ExportDependencies>)
    requires v.target.Export? && v.target.exportIndex < |all|
    ensures ok <==> !BadSelfLink(u, v)
    ensures ok ==> Extended(all, next, [(u, v)])
    ensures ok <==> u.target != v.target || (u.command.Create? && v.command.Serialize?)
    ensures u.target == v.target ==> next == all
    ensures u.target != v.target ==>
      var e := v.target.exportIndex;
      next == all[e := match (u.command, v.command)
                       case (Create, Create) =>
                         all[e].(createBeforeCreate := all[e].createBeforeCreate + [u.target])
                       case (Serialize, Create) =>
                         all[e].(serializeBeforeCreate := all[e].serializeBeforeCreate + [u.target])
                       case (Create, Serialize) =>
                         all[e].(createBeforeSerialize := all[e].createBeforeSerialize + [u.target])
                       case (Serialize, Serialize) =>
                         all[e].(serializeBeforeSerialize := all[e].serializeBeforeSerialize + [u.target])]
  {
    next := all;
    if u.target == v.target {
      ok := u.command.Create? && v.command.Serialize?;
    } else {
      ok := true;
      var e := v.target.exportIndex;
      var d := all[e];
      match (u.command, v.command) {
        case (Create, Create) => d := d.(createBeforeCreate := d.createBeforeCreate + [u.target]);
        case (Serialize, Create) => d := d.(serializeBeforeCreate := d.serializeBeforeCreate + [u.target]);
        case (Create, Serialize) => d := d.(createBeforeSerialize := d.createBeforeSerialize + [u.target]);
        case (Serialize, Serialize) => d := d.(serializeBeforeSerialize := d.serializeBeforeSerialize + [u.target]);
      }
      next := all[e := d];
    }
  }

  /** One more link on top of those added already. */
  method AddLink(all: seq<ExportDependencies>, current: seq<ExportDependencies>, u: DepNode, v: DepNode,
                 ghost links: Links)
    returns (ok: bool, next: seq<ExportDependencies>)
    requires v.target.Export? && v.target.exportIndex < |all|
    requires Extended(all, current, links) && NoBadLink(links)
    ensures ok <==> !BadSelfLink(u, v)
    ensures ok ==> Extended(all, next, links + [(u, v)]) && NoBadLink(links + [(u, v)])
  {
    ok, next := AddDependency(current, u, v);
    if ok {
      ExtendedTwice(all, current, next, links, [(u, v)]);
    }
  }

  /** Consecutive entries of one bundle. */
  method LinkBundle(z: ArcData, b: nat, all: seq<ExportDependencies>)
    returns (ok: bool, next: seq<ExportDependencies>, ghost links: Links)
    requires z.Valid() && b < |z.headers| && |all| == z.exportCount
    ensures !ok ==> exists u, v :: z.LinkInBundle(b, u, v) && BadSelfLink(u, v)
    ensures ok ==> NoBadLink(links) && Extended(all, next, links)
    ensures ok ==> forall u, v :: (u, v) in links <==> z.LinkInBundle(b, u, v)
  {
    var first, count := z.headers[b].firstEntry, z.headers[b].entryCount;
    next, links := all, [];
    for i := 1 to count
      invariant |links| == i - 1
      invariant forall k :: 0 <= k < |links| ==> links[k].0 == z.entries[first + k]
      invariant forall k :: 0 <= k < |links| ==> links[k].1 == z.entries[first + k + 1]
      invariant Extended(all, next, links) && NoBadLink(links)
    {
      var u, v := z.entries[first + i - 1], z.entries[first + i];
      assert v in z.entries;
      ok, next := AddLink(all, next, u, v, links);
      if !ok {
        assert z.LinkInBundle(b, u, v);
        return;
      }
      links := links + [(u, v)];
    }
    ok := true;
    BundleLinksExact(z, b, links);
  }

  lemma {:induction false} BundleLinksExact(z: ArcData, b: nat, links: Links)
    requires z.Valid() && b < |z.headers| && |links| == z.headers[b].entryCount - 1
    requires forall k :: 0 <= k < |links| ==> links[k].0 == z.entries[z.headers[b].firstEntry + k]
    requires forall k :: 0 <= k < |links| ==> links[k].1 == z.entries[z.headers[b].firstEntry + k + 1]
    ensures forall u, v :: (u, v) in links <==> z.LinkInBundle(b, u, v)
  {
    forall u, v | z.LinkInBundle(b, u, v) ensures (u, v) in links {
      var first := z.headers[b].firstEntry;
      var i, j :| first <= i < j < z.headers[b].End() && j == i + 1 && u == z.entries[i] && v == z.entries[j];
      assert links[i - first] == (u, v);
    }
  }

  /** All bundles in turn. */
  method LinkBundles(z: ArcData, all: seq<ExportDependencies>)
    returns (ok: bool, next: seq<ExportDependencies>, ghost links: Links)
    requires z.Valid() && |all| == z.exportCount
    ensures !ok ==> exists b, u, v :: 0 <= b < |z.headers| && z.LinkInBundle(b, u, v) && BadSelfLink(u, v)
    ensures ok ==> NoBadLink(links) && Extended(all, next, links)
    ensures ok ==> forall u, v :: (u, v) in links <==> exists b :: 0 <= b < |z.headers| && z.LinkInBundle(b, u, v)
  {
    next, links := all, [];
    for b := 0 to |z.headers|
      invariant Extended(all, next, links) && NoBadLink(links)
      invariant forall u, v :: (u, v) in links <==> exists c :: 0 <= c < b && z.LinkInBundle(c, u, v)
    {
      ghost var before, more := next, [];
      ok, next, more := LinkBundle(z, b, next);
      if !ok {
        return;
      }
      ExtendedTwice(all, before, next, links, more);
      links := links + more;
    }
    ok := true;
  }

  /** Arcs between bundles, from the last element of one to the first element of the other. */
  method LinkArcs(z: ArcData, arcs: seq<BundleArc>, all: seq<ExportDependencies>)
    returns (ok: bool, next: seq<ExportDependencies>, ghost links: Links)
    requires z.Valid() && |all| == z.exportCount
    requires forall a :: a in arcs ==> 0 <= a.from < |z.headers| && a.to < |z.headers|
    ensures !ok ==> exists a, u, v :: a in arcs && z.LinkByArc(a, u, v) && BadSelfLink(u, v)
    ensures ok ==> NoBadLink(links) && Extended(all, next, links)
    ensures ok ==> forall u, v :: (u, v) in links <==> exists a :: a in arcs && z.LinkByArc(a, u, v)
  {
    next, links := all, [];
    for k := 0 to |arcs|
      invariant Extended(all, next, links) && NoBadLink(links)
      invariant |links| == k
      invariant forall i :: 0 <= i < k ==> links[i] == (z.Last(arcs[i].from), z.First(arcs[i].to))
    {
      var u, v := z.Last(arcs[k].from), z.First(arcs[k].to);
      assert v in z.entries;
      ok, next := AddLink(all, next, u, v, links);
      if !ok {
        assert z.LinkByArc(arcs[k], u, v);
        return;
      }
      links := links + [(u, v)];
    }
    ok := true;
    forall u, v | exists a :: a in arcs && z.LinkByArc(a, u, v) ensures (u, v) in links {
      var i :| 0 <= i < |arcs| && z.LinkByArc(arcs[i], u, v);
      assert links[i] == (u, v);
    }
  }

  /** The internal arcs; legacy containers have none and get one to every bundle from the one before it. */
  method AllArcs(z: ArcData) returns (arcs: seq<BundleArc>)
    requires z.Valid()
    ensures forall a :: a in arcs <==> z.IsArc(a)
  {
    arcs := z.internalArcs;
    if z.legacyContainer && |z.headers| > 0 {
      for b := 1 to |z.headers|
        invariant forall a :: a in arcs <==> a in z.internalArcs || (1 <= a.to < b && a.from == a.to - 1)
      {
        arcs := arcs + [BundleArc(b - 1, b)];
      }
    }
  }

  /** Arcs from imports to the first element of a bundle. */
  method LinkImports(z: ArcData, all: seq<ExportDependencies>)
    returns (ok: bool, next: seq<ExportDependencies>, ghost links: Links)
    requires z.Valid() && |all| == z.exportCount
    ensures ok && NoBadLink(links) && Extended(all, next, links)
    ensures forall u, v :: (u, v) in links <==> exists a :: a in z.importArcs && z.LinkByImport(a, u, v)
  {
    next, links := all, [];
    for k := 0 to |z.importArcs|
      invariant Extended(all, next, links) && NoBadLink(links)
      invariant |links| == k
      invariant forall i :: 0 <= i < k ==> links[i] == z.ImportLink(z.importArcs[i])
    {
      var (u, v) := z.ImportLink(z.importArcs[k]);
      FirstIsExport(z, z.importArcs[k].to);
      ok, next := AddLink(all, next, u, v, links);
      links := links + [(u, v)];
    }
    ok := true;
    ImportLinksExact(z, links);
  }

  lemma {:induction false} FirstIsExport(z: ArcData, b: nat)
    requires z.Valid() && b < |z.headers|
    ensures z.First(b).target.Export? && z.First(b).target.exportIndex < z.exportCount
  {
    assert z.First(b) in z.entries;
  }

  lemma {:induction false} ImportLinksExact(z: ArcData, links: Links)
    requires z.Valid() && |links| == |z.importArcs|
    requires forall i :: 0 <= i < |links| ==> links[i] == z.ImportLink(z.importArcs[i])
    ensures forall u, v :: (u, v) in links <==> exists a :: a in z.importArcs && z.LinkByImport(a, u, v)
  {
    forall u, v | exists a :: a in z.importArcs && z.LinkByImport(a, u, v) ensures (u, v) in links {
      var i :| 0 <= i < |z.importArcs| && z.LinkByImport(z.importArcs[i], u, v);
      assert links[i] == (u, v);
    }
  }

  /** Legacy arcs from the last element of a bundle of one imported package. */
  method LinkPackage(z: ArcData, p: nat, all: seq<ExportDependencies>)
    returns (next: seq<ExportDependencies>, ghost links: Links)
    requires z.Valid() && |all| == z.exportCount && p < |z.imported|
    ensures NoBadLink(links) && Extended(all, next, links)
    ensures forall u, v :: (u, v) in links <==> exists a :: a in z.legacyArcs[p] && z.LinkByLegacyArc(p, a, u, v)
  {
    next, links := all, [];
    if z.imported[p].None? {
      return;
    }
    var package := z.imported[p].value;
    for k := 0 to |z.legacyArcs[p]|
      invariant Extended(all, next, links) && NoBadLink(links)
      invariant forall u, v :: (u, v) in links <==>
                  exists i :: 0 <= i < k && z.LinkByLegacyArc(p, z.legacyArcs[p][i], u, v)
    {
      var a := z.legacyArcs[p][k];
      var last := package.LastEntry(a.from);
      assert last in package.entries;
      if last.target.exportIndex in package.importOf {
        var u, v := DepNode(Import(package.importOf[last.target.exportIndex]), last.command), z.First(a.to);
        assert v in z.entries;
        var ok;
        ok, next := AddLink(all, next, u, v, links);
        links := links + [(u, v)];
      }
    }
  }

  method LinkPackages(z: ArcData, all: seq<ExportDependencies>)
    returns (next: seq<ExportDependencies>, ghost links: Links)
    requires z.Valid() && |all| == z.exportCount
    ensures NoBadLink(links) && Extended(all, next, links)
    ensures forall u, v :: (u, v) in links <==>
              exists p, a :: 0 <= p < |z.imported| && a in z.legacyArcs[p] && z.LinkByLegacyArc(p, a, u, v)
  {
    next, links := all, [];
    for p := 0 to |z.imported|
      invariant Extended(all, next, links) && NoBadLink(links)
      invariant forall u, v :: (u, v) in links <==>
                  exists q, a :: 0 <= q < p && a in z.legacyArcs[q] && z.LinkByLegacyArc(q, a, u, v)
    {
      ghost var before, more := next, [];
      next, more := LinkPackage(z, p, next);
      ExtendedTwice(all, before, next, links, more);
      links := links + more;
    }
  }

  /**
   * `resolve_export_dependencies_internal_dependency_arcs`: fails exactly when some link would make an export
   * wait for itself, and otherwise lists exactly the links between different objects.
   */
  method ResolveArcs(z: ArcData) returns (r: Result<seq<ExportDependencies>>)
    requires z.Valid()
    ensures r.Success? <==> forall u, v :: z.Link(u, v) ==> !BadSelfLink(u, v)
    ensures r.Success? ==> |r.value| == z.exportCount
    ensures r.Success? ==> forall u, v :: Listed(r.value, u, v) <==> z.Link(u, v) && u.target != v.target
  {
    var all := seq(z.exportCount, _ => NO_DEPENDENCIES);
    var ok, next;
    ghost var l0, l1, l2, l3;
    ok, next, l0 := LinkBundles(z, all);
    if !ok {
      return Failure("Invalid export bundle composition for the asset");
    }
    var arcs := AllArcs(z);
    ghost var s0 := next;
    ok, next, l1 := LinkArcs(z, arcs, next);
    if !ok {
      return Failure("Invalid export bundle composition for the asset");
    }
    ghost var s1 := next;
    ok, next, l2 := LinkImports(z, next);
    ghost var s2 := next;
    ExtendedTwice(all, s0, s1, l0, l1);
    ExtendedTwice(all, s1, s2, l0 + l1, l2);
    l3 := [];
    if z.legacyContainer {
      next, l3 := LinkPackages(z, next);
      ExtendedTwice(all, s2, next, l0 + l1 + l2, l3);
    }
    ghost var links := l0 + l1 + l2 + l3;
    assert Extended(all, next, links);
    forall u, v ensures (u, v) in links <==> z.Link(u, v) {
      assert (u, v) in links <==> (u, v) in l0 || (u, v) in l1 || (u, v) in l2 || (u, v) in l3;
    }
    r := Success(next);
  }
}
