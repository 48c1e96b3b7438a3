/** The rebuilt code file as a whole: what it holds, where, and what each map preloads. */
module ShaderCodeFile {
  import opened Bytes
  import opened ShaderGroups
  import opened ShaderCodeLayout

  // ---- Prefixes of the file order ----

  lemma {:induction false} SelectedPrefix(counts: seq<nat>, kind: Kind, n: nat, m: nat)
    requires n <= m <= |counts|
    ensures Selected(counts, kind, n) <= Selected(counts, kind, m)
    decreases m
  {
    if n < m {
      SelectedPrefix(counts, kind, n, m - 1);
    }
  }

  ghost predicate Reached(lib: Library, m: nat, i: nat)
    requires lib.Valid()
  {
    if m < |lib.maps| then i <= lib.maps[m].count else m == |lib.maps| && i == 0
  }

  lemma {:induction false} UniquesPrefix(lib: Library, m: nat, i: nat, m': nat, i': nat)
    requires lib.Valid() && Reached(lib, m, i) && Reached(lib, m', i') && (m < m' || (m == m' && i <= i'))
    ensures Uniques(lib, m, i) <= Uniques(lib, m', i')
    ensures forall s :: MapsOf(lib, s, m, i) <= MapsOf(lib, s, m', i')
    decreases m', i'
  {
    if m == m' && i == i' {
    } else if i' > 0 {
      UniquesPrefix(lib, m, i, m', i' - 1);
    } else {
      UniquesPrefix(lib, m, i, m' - 1, lib.maps[m' - 1].count);
    }
  }

  lemma {:induction false} PrefixThen<T>(a: seq<T>, b: seq<T>, c: seq<T>)
    requires b <= c
    ensures a + b <= a + c
  {
  }

  /** The next shader of the file order has not been written. */
  lemma {:induction false} NextIsNew(lib: Library, order: seq<nat>, s: nat)
    requires lib.Valid() && order + [s] <= FileOrder(lib)
    ensures s !in order && s < |lib.entries|
  {
    var all := FileOrder(lib);
    FileOrderHoldsAll(lib);
    NumbersHold(|lib.entries|, s);
    assert all == (order + [s]) + all[|order| + 1..];
    assert multiset(all) == multiset(order) + multiset{s} + multiset(all[|order| + 1..]);
    assert s in order ==> multiset(order)[s] >= 1;
  }

  lemma {:induction false} SharedNext(lib: Library, i: nat)
    requires lib.Valid() && i < |lib.entries| && Counts(lib)[i] > 1
    ensures Selected(Counts(lib), SeveralMaps, i) + [i] <= FileOrder(lib)
  {
    SelectedPrefix(Counts(lib), SeveralMaps, i + 1, |lib.entries|);
    assert Shared(lib) <= FileOrder(lib) by {
      Associate(Shared(lib), Uniques(lib, |lib.maps|, 0), Detached(lib));
    }
  }

  lemma {:induction false} UniqueNext(lib: Library, m: nat, i: nat, s: nat)
    requires lib.Valid() && m < |lib.maps| && i < lib.maps[m].count && lib.maps[m].indicesOffset + i < |lib.indices|
    requires s == lib.indices[lib.maps[m].indicesOffset + i] && Count(lib, s) == 1
    ensures Shared(lib) + Uniques(lib, m, i) + [s] <= FileOrder(lib)
  {
    UniquesPrefix(lib, m, i + 1, |lib.maps|, 0);
    PrefixThen(Shared(lib), Uniques(lib, m, i + 1), Uniques(lib, |lib.maps|, 0));
    assert Uniques(lib, m, i + 1) == Uniques(lib, m, i) + [s];
    Associate(Shared(lib), Uniques(lib, m, i), [s]);
  }

  lemma {:induction false} DetachedNext(lib: Library, i: nat)
    requires lib.Valid() && i < |lib.entries| && Counts(lib)[i] == 0
    ensures Shared(lib) + Uniques(lib, |lib.maps|, 0) + Selected(Counts(lib), NoMap, i) + [i] <= FileOrder(lib)
  {
    SelectedPrefix(Counts(lib), NoMap, i + 1, |lib.entries|);
    var front := Shared(lib) + Uniques(lib, |lib.maps|, 0);
    PrefixThen(front, Selected(Counts(lib), NoMap, i + 1), Detached(lib));
    Associate(front, Selected(Counts(lib), NoMap, i), [i]);
  }

  // ---- The layout ----

  /** `WriteShaderCodeResult`. */
  datatype Layout = Layout(buffer: seq<byte>, regions: seq<Region>, mapRegions: seq<MapRegion>, shared: nat,
                           unique: nat, detached: nat)

  /** A map's region: from the first to the last of the shaders that only it names. */
  ghost predicate MapRegionFor(lib: Library, data: seq<seq<byte>>, m: nat, region: MapRegion)
    requires lib.Valid() && m < |lib.maps|
  {
    && region.start == |Joined(data, Shared(lib) + Uniques(lib, m, 0))|
    && region.start + region.size == |Joined(data, Shared(lib) + Uniques(lib, m, lib.maps[m].count))|
  }

  ghost predicate FlagsFor(lib: Library, order: seq<nat>, uniques: seq<bool>)
    requires lib.Valid()
  {
    |uniques| == |order| && forall j :: 0 <= j < |order| ==> FlagFits(lib, order, uniques, j)
  }

  ghost predicate FlagFits(lib: Library, order: seq<nat>, uniques: seq<bool>, j: nat)
    requires lib.Valid() && j < |order| == |uniques|
  {
    uniques[j] == (Count(lib, order[j]) == 1)
  }

  lemma {:induction false} FlagAppended(lib: Library, order: seq<nat>, uniques: seq<bool>, s: nat)
    requires lib.Valid() && FlagsFor(lib, order, uniques)
    ensures FlagsFor(lib, order + [s], uniques + [Count(lib, s) == 1])
  {
    var order', uniques' := order + [s], uniques + [Count(lib, s) == 1];
    forall j | 0 <= j < |order'| ensures FlagFits(lib, order', uniques', j) {
      if j < |order| {
        assert FlagFits(lib, order, uniques, j);
      }
    }
  }

  /** Every shader is in the file once, in the order of the layout. */
  ghost predicate Laid(lib: Library, data: seq<seq<byte>>, layout: Layout)
    requires lib.Valid()
  {
    && |data| == |lib.entries| == |layout.regions| && |layout.mapRegions| == |lib.maps|
    && layout.buffer == Joined(data, FileOrder(lib))
    && (forall j :: 0 <= j < |FileOrder(lib)| ==> RegionAt(lib, data, layout, j))
    && MapRegionsFor(lib, data, layout.mapRegions, |lib.maps|)
  }

  ghost predicate MapRegionsFor(lib: Library, data: seq<seq<byte>>, regions: seq<MapRegion>, n: nat)
    requires lib.Valid() && n <= |lib.maps| == |regions|
  {
    forall m: nat :: m < n ==> MapRegionFor(lib, data, m, regions[m])
  }

  ghost predicate RegionAt(lib: Library, data: seq<seq<byte>>, layout: Layout, j: nat)
    requires lib.Valid() && j < |FileOrder(lib)|
  {
    var s := FileOrder(lib)[j];
    s < |layout.regions| && s < |data|
    && layout.regions[s] == Region(PositionOf(data, FileOrder(lib), j), |data[s]|, Count(lib, s) == 1)
  }

  /** How many times the maps name each shader. */
  method ReferenceCounts(lib: Library) returns (counts: seq<nat>)
    requires lib.Valid()
    ensures counts == Counts(lib)
  {
    var table: array<nat> := new nat[|lib.entries|](_ => 0);
    for m := 0 to |lib.maps|
      invariant forall s :: 0 <= s < table.Length ==> table[s] == |MapsOf(lib, s, m, 0)|
    {
      assert lib.maps[m] in lib.maps;
      for i := 0 to lib.maps[m].count
        invariant forall s :: 0 <= s < table.Length ==> table[s] == |MapsOf(lib, s, m, i)|
      {
        var shader := lib.indices[lib.maps[m].indicesOffset + i];
        assert shader in lib.indices;
        table[shader] := table[shader] + 1;
      }
    }
    counts := table[..];
  }

  /** What the layout thread knows at any point. */
  ghost predicate Writing(writer: ShaderCodeWriter, lib: Library, order: seq<nat>)
    requires lib.Valid()
    reads writer
  {
    && writer.Valid() && writer.order == order && FlagsFor(lib, order, writer.uniques)
    && |writer.codes| == |lib.entries| && |writer.mapRegions| == |lib.maps|
  }

  /** One shader more, the next of the file order. */
  method WriteNext(writer: ShaderCodeWriter, lib: Library, s: nat, unique: bool, ghost order: seq<nat>)
    returns (ok: bool)
    requires lib.Valid() && Writing(writer, lib, order) && order + [s] <= FileOrder(lib) &&
             unique == (Count(lib, s) == 1)
    modifies writer
    ensures ok ==>
      Writing(writer, lib, order + [s]) && writer.mapRegions == old(writer.mapRegions) &&
      writer.mapStart == old(writer.mapStart)
    ensures !ok ==> !writer.AllStorable()
  {
    NextIsNew(lib, order, s);
    FlagAppended(lib, order, writer.uniques, s);
    ok := writer.Write(s, unique);
  }

  ghost function FrontOf(lib: Library, kind: Kind): seq<nat>
    requires lib.Valid()
  {
    if kind.SeveralMaps? then [] else Shared(lib) + Uniques(lib, |lib.maps|, 0)
  }

  lemma {:induction false} KindNext(lib: Library, kind: Kind, i: nat)
    requires lib.Valid() && i < |lib.entries| && IsOf(kind, Counts(lib)[i])
    ensures FrontOf(lib, kind) + Selected(Counts(lib), kind, i) + [i] <= FileOrder(lib)
    ensures FrontOf(lib, kind) + Selected(Counts(lib), kind, i) + [i]
      == FrontOf(lib, kind) + Selected(Counts(lib), kind, i + 1)
    ensures Count(lib, i) != 1
  {
    match kind
    case SeveralMaps =>
      SharedNext(lib, i);
      assert [] + Selected(Counts(lib), kind, i) == Selected(Counts(lib), kind, i);
    case NoMap => DetachedNext(lib, i);
  }

  /** What has been written when the shaders of a kind below `i` have been. */
  ghost function KindUpTo(lib: Library, kind: Kind, i: nat): seq<nat>
    requires lib.Valid() && i <= |lib.entries|
  {
    FrontOf(lib, kind) + Selected(Counts(lib), kind, i)
  }

  lemma {:induction false} KindSkips(lib: Library, kind: Kind, i: nat)
    requires lib.Valid() && i < |lib.entries| && !IsOf(kind, Counts(lib)[i])
    ensures KindUpTo(lib, kind, i + 1) == KindUpTo(lib, kind, i)
  {
    assert Selected(Counts(lib), kind, i) + [] == Selected(Counts(lib), kind, i);
  }

  /** The `i`-th shader, if it is of the kind. */
  method WriteIfKind(writer: ShaderCodeWriter, lib: Library, counts: seq<nat>, kind: Kind, i: nat, n: nat)
    returns (ok: bool, n': nat)
    requires lib.Valid() && counts == Counts(lib) && i < |counts| && Writing(writer, lib, KindUpTo(lib, kind, i))
    requires n == |Selected(counts, kind, i)|
    modifies writer
    ensures ok ==> Writing(writer, lib, KindUpTo(lib, kind, i + 1)) && writer.mapRegions == old(writer.mapRegions)
    ensures ok ==> n' == |Selected(counts, kind, i + 1)|
    ensures !ok ==> !writer.AllStorable()
  {
    ok, n' := true, n;
    if IsOf(kind, counts[i]) {
      KindNext(lib, kind, i);
      ok := WriteNext(writer, lib, i, false, KindUpTo(lib, kind, i));
      n' := n + 1;
    } else {
      KindSkips(lib, kind, i);
    }
  }

  /** All shaders of a kind, behind what has been written. */
  method WriteKind(writer: ShaderCodeWriter, lib: Library, counts: seq<nat>, kind: Kind) returns (ok: bool, n: nat)
    requires lib.Valid() && counts == Counts(lib) && Writing(writer, lib, KindUpTo(lib, kind, 0))
    modifies writer
    ensures ok ==> Writing(writer, lib, KindUpTo(lib, kind, |lib.entries|)) && n == |Selected(counts, kind, |counts|)|
    ensures ok ==> writer.mapRegions == old(writer.mapRegions)
    ensures !ok ==> !writer.AllStorable()
  {
    ok, n := true, 0;
    for i := 0 to |counts|
      invariant ok && Writing(writer, lib, KindUpTo(lib, kind, i)) && n == |Selected(counts, kind, i)|
      invariant writer.mapRegions == old(writer.mapRegions)
    {
      ok, n := WriteIfKind(writer, lib, counts, kind, i, n);
      if !ok {
        return;
      }
    }
  }

  // ---- Unique shaders ----

  /** What has been written when the maps before `m` and the first `i` places of map `m` have been visited. */
  ghost function MapsUpTo(lib: Library, m: nat, i: nat): seq<nat>
    requires lib.Valid() && Reached(lib, m, i)
  {
    Shared(lib) + Uniques(lib, m, i)
  }

  /** One place of a map: its shader, if only this map names it. */
  method WriteIfUnique(writer: ShaderCodeWriter, lib: Library, counts: seq<nat>, m: nat, i: nat, n: nat)
    returns (ok: bool, n': nat)
    requires lib.Valid() && counts == Counts(lib) && m < |lib.maps| && i < lib.maps[m].count &&
             Writing(writer, lib, MapsUpTo(lib, m, i))
    requires n == |Uniques(lib, m, i)|
    modifies writer
    ensures ok ==> Writing(writer, lib, MapsUpTo(lib, m, i + 1)) && n' == |Uniques(lib, m, i + 1)|
    ensures ok ==> writer.mapRegions == old(writer.mapRegions) && writer.mapStart == old(writer.mapStart)
    ensures !ok ==> !writer.AllStorable()
  {
    ok, n' := true, n;
    assert lib.maps[m] in lib.maps;
    var s := lib.indices[lib.maps[m].indicesOffset + i];
    assert s in lib.indices;
    UniqueStep(lib, m, i, s);
    if counts[s] == 1 {
      ok := WriteNext(writer, lib, s, true, MapsUpTo(lib, m, i));
      n' := n + 1;
    }
  }

  lemma {:induction false} UniqueStep(lib: Library, m: nat, i: nat, s: nat)
    requires lib.Valid() && m < |lib.maps| && i < lib.maps[m].count && lib.maps[m].indicesOffset + i < |lib.indices|
    requires s == lib.indices[lib.maps[m].indicesOffset + i]
    ensures Count(lib, s) == 1 ==>
      MapsUpTo(lib, m, i) + [s] == MapsUpTo(lib, m, i + 1) && MapsUpTo(lib, m, i) + [s] <= FileOrder(lib)
    ensures Count(lib, s) == 1 ==> |Uniques(lib, m, i + 1)| == |Uniques(lib, m, i)| + 1
    ensures Count(lib, s) != 1 ==>
      MapsUpTo(lib, m, i) == MapsUpTo(lib, m, i + 1) && |Uniques(lib, m, i + 1)| == |Uniques(lib, m, i)|
  {
    if Count(lib, s) == 1 {
      UniqueNext(lib, m, i, s);
      Associate(Shared(lib), Uniques(lib, m, i), [s]);
    } else {
      assert Uniques(lib, m, i) + [] == Uniques(lib, m, i);
    }
  }

  /** One map: its start, its unique shaders, and its end. */
  method WriteMap(writer: ShaderCodeWriter, lib: Library, counts: seq<nat>, m: nat, n: nat) returns (ok: bool, n': nat)
    requires lib.Valid() && counts == Counts(lib) && m < |lib.maps| && Writing(writer, lib, MapsUpTo(lib, m, 0)) &&
             n == |Uniques(lib, m, 0)|
    modifies writer
    ensures ok ==> Writing(writer, lib, MapsUpTo(lib, m + 1, 0)) && n' == |Uniques(lib, m + 1, 0)|
    ensures ok ==> exists region ::
      MapRegionFor(lib, writer.data, m, region) && writer.mapRegions == old(writer.mapRegions)[m := region]
    ensures !ok ==> !writer.AllStorable()
  {
    writer.StartMap();
    ok, n' := true, n;
    for i := 0 to lib.maps[m].count
      invariant ok && Writing(writer, lib, MapsUpTo(lib, m, i)) && n' == |Uniques(lib, m, i)|
      invariant writer.mapRegions == old(writer.mapRegions) &&
                writer.mapStart == |Joined(writer.data, MapsUpTo(lib, m, 0))|
    {
      ok, n' := WriteIfUnique(writer, lib, counts, m, i, n');
      if !ok {
        return;
      }
    }
    MapNotNegative(lib, writer.data, m);
    writer.EndMap(m);
    assert MapRegionFor(lib, writer.data, m, writer.mapRegions[m]);
  }

  lemma {:induction false} MapNotNegative(lib: Library, data: seq<seq<byte>>, m: nat)
    requires lib.Valid() && m < |lib.maps|
    ensures |Joined(data, MapsUpTo(lib, m, 0))| <= |Joined(data, MapsUpTo(lib, m, lib.maps[m].count))|
  {
    var a, b := MapsUpTo(lib, m, 0), MapsUpTo(lib, m, lib.maps[m].count);
    UniquesPrefix(lib, m, 0, m, lib.maps[m].count);
    PrefixThen(Shared(lib), Uniques(lib, m, 0), Uniques(lib, m, lib.maps[m].count));
    JoinedConcat(data, a, b[|a|..]);
    assert a + b[|a|..] == b;
  }

  method WriteMaps(writer: ShaderCodeWriter, lib: Library, counts: seq<nat>) returns (ok: bool, n: nat)
    requires lib.Valid() && counts == Counts(lib) && Writing(writer, lib, MapsUpTo(lib, 0, 0))
    modifies writer
    ensures ok ==> Writing(writer, lib, MapsUpTo(lib, |lib.maps|, 0)) && n == |Uniques(lib, |lib.maps|, 0)|
    ensures ok ==> MapRegionsFor(lib, writer.data, writer.mapRegions, |lib.maps|)
    ensures !ok ==> !writer.AllStorable()
  {
    ok, n := true, 0;
    for m := 0 to |lib.maps|
      invariant ok && Writing(writer, lib, MapsUpTo(lib, m, 0)) && n == |Uniques(lib, m, 0)|
      invariant MapRegionsFor(lib, writer.data, writer.mapRegions, m)
    {
      ghost var before := writer.mapRegions;
      ok, n := WriteMap(writer, lib, counts, m, n);
      if !ok {
        return;
      }
      forall l: nat | l < m + 1 ensures MapRegionFor(lib, writer.data, l, writer.mapRegions[l]) {
        assert l < m ==> MapRegionFor(lib, writer.data, l, before[l]);
      }
    }
  }
}
