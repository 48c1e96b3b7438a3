/** A fixed-up legacy arc names the bundle that ends with the command depended on, so the dependency survives. */
module LegacyArcMeaning {
  import opened Package
  import opened LoadOrder
  import opened ExportBundles
  import opened ArcDependencies
  import opened ArcMeaning
  import opened LegacyArcs

  /** A converted package: its load order, cut into bundles, and the object index of each export. */
  datatype Conversion = Conversion(order: seq<GraphNode>, public: seq<bool>, sizes: seq<nat>, objectIndex: seq<nat>,
                                   headers: seq<BundleHeader>) {
    ghost predicate Valid() {
      && Distinct(order) && Flagged(order, public)
      && (forall n :: n in order ==> n.exportIndex < |sizes| && n.exportIndex < |objectIndex|)
      && CutUpTo(headers, order, sizes, |order|)
      && IndicesDistinct()
    }

    /** Object indices are hashes of full names; those of different public exports differ. */
    ghost predicate IndicesDistinct() {
      forall e, f :: 0 <= e < |objectIndex| && 0 <= f < |objectIndex| && objectIndex[e] == objectIndex[f] ==> e == f
    }

    ghost function PublicEntries(): seq<PublicEntry>
      requires Valid()
    {
      PublicEntriesOf(order, objectIndex, |order|)
    }
  }

  /** A command of a public export is the last entry of its bundle. */
  lemma {:induction false} PublicClosesBundle(c: Conversion, i: nat)
    requires c.Valid() && i < |c.order| && c.order[i].isPublic
    ensures BundleAt(c.order, i) < |c.headers| && c.headers[BundleAt(c.order, i)].End() == i + 1
  {
    var b := BundleAt(c.order, i);
    assert InBundle(c.headers, c.order, i);
    TilesEnd(c.headers, |c.order|, b);
    if c.headers[b].End() > i + 1 {
      assert InBundle(c.headers, c.order, i + 1);
      TilesDisjoint(c.headers, |c.order|, b, b + 1);
    }
  }

  lemma {:induction false} FindEntryConcat(a: seq<PublicEntry>, b: seq<PublicEntry>, objectIndex: nat, command: Command)
    ensures FindEntry(a + b, objectIndex, command) ==
            if FindEntry(a, objectIndex, command).Some?
              then FindEntry(a, objectIndex, command) else FindEntry(b, objectIndex, command)
  {
    if a == [] {
      assert a + b == b;
    } else {
      assert (a + b)[1..] == a[1..] + b;
      FindEntryConcat(a[1..], b, objectIndex, command);
    }
  }

  /** Looking up a public command finds its own bundle. */
  lemma {:induction false} FindsOwnBundle(c: Conversion, n: nat, i: nat)
    requires c.Valid() && n <= |c.order| && i < |c.order| && c.order[i].isPublic
    ensures FindEntry(PublicEntriesOf(c.order, c.objectIndex, n), c.objectIndex[c.order[i].exportIndex],
                      c.order[i].command) ==
            if i < n then Some(PublicEntry(c.objectIndex[c.order[i].exportIndex], c.order[i].command,
                                           BundleAt(c.order, i))) else None
  {
    if n > 0 {
      FindsOwnBundle(c, n - 1, i);
      var last, g := c.order[n - 1], c.order[i];
      assert last in c.order && g in c.order;
      if last.exportIndex == g.exportIndex && last.command == g.command {
        assert last == g;
      }
      var more := if last.isPublic
        then [PublicEntry(c.objectIndex[last.exportIndex], last.command, BundleAt(c.order, n - 1))] else [];
      FindEntryConcat(PublicEntriesOf(c.order, c.objectIndex, n - 1), more, c.objectIndex[g.exportIndex], g.command);
    }
  }

  lemma {:induction false} FindFixupByNumber(fixups: seq<ArcFixup>, first: nat, id: nat)
    requires forall i :: 0 <= i < |fixups| ==> fixups[i].id == first + i
    requires first <= id < first + |fixups|
    ensures FindFixup(fixups, id) == Some(fixups[id - first])
  {
    if fixups[0].id != id {
      FindFixupByNumber(fixups[1..], first + 1, id);
    }
  }

  /**
   * The fix-up is exact: the placeholder of a dependency on a public export command of a converted package becomes
   * the number of the bundle whose last entry is that very command.
   */
  lemma {:induction false} FixupIsExact(fixups: seq<ArcFixup>, conversions: seq<Option<Conversion>>,
                                        imported: seq<Option<seq<PublicEntry>>>, id: nat, i: nat)
    requires id < |fixups| && forall k :: 0 <= k < |fixups| ==> fixups[k].id == k
    requires |imported| == |conversions| && fixups[id].importedPackage < |conversions|
    requires forall p :: 0 <= p < |imported| && conversions[p].Some? ==>
      conversions[p].value.Valid() && imported[p] == Some(conversions[p].value.PublicEntries())
    requires conversions[fixups[id].importedPackage].Some?
    requires var c := conversions[fixups[id].importedPackage].value;
      && c.Valid() && i < |c.order| && c.order[i].isPublic && c.order[i] in c.order
      && fixups[id].command == c.order[i].command && fixups[id].objectIndex == c.objectIndex[c.order[i].exportIndex]
    ensures var c := conversions[fixups[id].importedPackage].value;
      && Target(fixups, imported, id).Success? && 0 <= Target(fixups, imported, id).value < |c.headers|
      && c.headers[Target(fixups, imported, id).value].End() - 1 == i
  {
    var c := conversions[fixups[id].importedPackage].value;
    FindFixupByNumber(fixups, 0, id);
    FindsOwnBundle(c, |c.order|, i);
    PublicClosesBundle(c, i);
  }

  /** A package that is not being converted is entered through its last bundle. */
  lemma {:induction false} UnconvertedMeansLast(fixups: seq<ArcFixup>, imported: seq<Option<seq<PublicEntry>>>, id: nat)
    requires id < |fixups| && forall k :: 0 <= k < |fixups| ==> fixups[k].id == k
    requires fixups[id].importedPackage >= |imported| || imported[fixups[id].importedPackage].None?
    ensures Target(fixups, imported, id) == Success(-1 as int)
  {
    FindFixupByNumber(fixups, 0, id);
  }

  /**
   * An arc from the bundle -1 of a package comes from the last entry of all: the import made for that entry's export is
   * loaded, as far as that entry's command goes, before every entry of the bundle that the arc leads to.
   */
  lemma {:induction false} LastEntryForced(z: ArcData, all: seq<ExportDependencies>, order: seq<GraphNode>,
                                           sizes: seq<nat>, j: nat, p: nat, a: BundleArc)
    requires Bundled(z, order, sizes) && Rebuilt(z, all) && z.legacyContainer
    requires p < |z.imported| && z.imported[p].Some? && a in z.legacyArcs[p] && a.from == -1
    requires j < |order| && a.to == BundleAt(order, j)
    requires Tiles(z.imported[p].value.headers, |z.imported[p].value.entries|) && z.imported[p].value.entries != []
    requires var entries := z.imported[p].value.entries;
      entries[|entries| - 1].target.Export? && entries[|entries| - 1].target.exportIndex in z.imported[p].value.importOf
    ensures var package := z.imported[p].value; var last := package.entries[|package.entries| - 1];
      Forces(all, DepNode(Import(package.importOf[last.target.exportIndex]), last.command), NodeOf(order[j]))
  {
    var package := z.imported[p].value;
    var last := package.entries[|package.entries| - 1];
    var from := DepNode(Import(package.importOf[last.target.exportIndex]), last.command);
    assert package.LastEntry(-1) == last;
    assert z.LinkByLegacyArc(p, a, from, z.First(a.to));
    assert InBundle(z.headers, order, j);
    LinkReaches(z, all, from, a.to, j);
  }

  lemma {:induction false} LegacyArcLinks(z: ArcData, p: nat, a: BundleArc, c: Conversion, i: nat)
    requires z.Valid() && z.legacyContainer
    requires p < |z.imported| && z.imported[p].Some? && a in z.legacyArcs[p]
    requires z.imported[p].value.headers == c.headers && z.imported[p].value.entries == EntriesOf(c.order, |c.order|)
    requires i < |c.order| && 0 <= a.from < |c.headers| && c.headers[a.from].End() - 1 == i
    requires c.order[i].exportIndex in z.imported[p].value.importOf
    ensures z.Link(DepNode(Import(z.imported[p].value.importOf[c.order[i].exportIndex]), c.order[i].command),
                   z.First(a.to))
  {
    var from := DepNode(Import(z.imported[p].value.importOf[c.order[i].exportIndex]), c.order[i].command);
    assert z.imported[p].value.LastEntry(a.from) == NodeOf(c.order[i]);
    assert z.LinkByLegacyArc(p, a, from, z.First(a.to));
  }

  /**
   * A dependency on an export of another package survives the way through a legacy container: the arc that stands
   * for it, once fixed up, makes the import of that very export precede the dependent command.
   */
  lemma {:induction false} LegacyDependencyForced(z: ArcData, all: seq<ExportDependencies>, order: seq<GraphNode>,
                                                  sizes: seq<nat>, j: nat, p: nat, a: BundleArc, c: Conversion, i: nat)
    requires Bundled(z, order, sizes) && Rebuilt(z, all) && z.legacyContainer
    requires p < |z.imported| && z.imported[p].Some? && a in z.legacyArcs[p]
    requires j < |order| && a.to == BundleAt(order, j)
    requires z.imported[p].value.headers == c.headers && z.imported[p].value.entries == EntriesOf(c.order, |c.order|)
    requires i < |c.order| && 0 <= a.from < |c.headers| && c.headers[a.from].End() - 1 == i
    requires c.order[i].exportIndex in z.imported[p].value.importOf
    ensures Forces(all, DepNode(Import(z.imported[p].value.importOf[c.order[i].exportIndex]), c.order[i].command),
                   NodeOf(order[j]))
  {
    LegacyArcLinks(z, p, a, c, i);
    assert InBundle(z.headers, order, j);
    LinkReaches(z, all, DepNode(Import(z.imported[p].value.importOf[c.order[i].exportIndex]), c.order[i].command),
                a.to, j);
  }
}
