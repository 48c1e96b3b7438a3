/** The code file and its preload entries: every shader once, and every map's shaders preloaded. */
module ShaderPreloads {
  import opened Package
  import opened Bytes
  import opened Codecs
  import opened Sorting
  import opened ShaderGroups
  import opened ShaderCodeLayout
  import opened ShaderCodeFile

  /** What was written as the result of the layout. */
  lemma {:induction false} WrittenIsLaid(lib: Library, data: seq<seq<byte>>, uniques: seq<bool>, buffer: seq<byte>,
                                         layout: Layout)
    requires lib.Valid() && |data| == |lib.entries| == |layout.regions| && |layout.mapRegions| == |lib.maps|
    requires Written(data, FileOrder(lib), uniques, layout.buffer, layout.regions) &&
             FlagsFor(lib, FileOrder(lib), uniques)
    requires MapRegionsFor(lib, data, layout.mapRegions, |lib.maps|)
    ensures Laid(lib, data, layout)
  {
    var order := FileOrder(lib);
    forall j | 0 <= j < |order| ensures RegionAt(lib, data, layout, j) {
      assert RegionFits(data, order, uniques, layout.regions, j) && FlagFits(lib, order, uniques, j);
    }
  }

  lemma {:induction false} NothingMissing(lib: Library, regions: seq<Region>, data: seq<seq<byte>>, uniques: seq<bool>,
                                          s: nat)
    requires lib.Valid() && |uniques| == |FileOrder(lib)| && RegionsFor(data, FileOrder(lib), uniques, regions)
    requires s < |lib.entries| == |regions|
    ensures regions[s].start >= 0
  {
    var order := FileOrder(lib);
    FileOrderHoldsAll(lib);
    NumbersHold(|lib.entries|, s);
    assert s in order;
    var j :| 0 <= j < |order| && order[j] == s;
    assert RegionFits(data, order, uniques, regions, j);
  }

  /** The shaders are counted by where they go. */
  lemma {:induction false} CountsAddUp(lib: Library)
    requires lib.Valid()
    ensures |Shared(lib)| + |Uniques(lib, |lib.maps|, 0)| + |Detached(lib)| == |lib.entries|
  {
    FileOrderHoldsAll(lib);
    SameLength(FileOrder(lib), Numbers(|lib.entries|));
  }

  /** Shared shaders, then each map's own, then those of no map. */
  method WriteAll(writer: ShaderCodeWriter, lib: Library) returns (ok: bool, shared: nat, unique: nat, detached: nat)
    requires lib.Valid() && Writing(writer, lib, [])
    modifies writer
    ensures ok ==>
      Writing(writer, lib, FileOrder(lib)) && MapRegionsFor(lib, writer.data, writer.mapRegions, |lib.maps|)
    ensures ok ==> shared + unique + detached == |lib.entries|
    ensures !ok ==> !writer.AllStorable()
  {
    shared, unique, detached := 0, 0, 0;
    var counts := ReferenceCounts(lib);
    OrderJoints(lib);
    ok, shared := WriteKind(writer, lib, counts, SeveralMaps);
    if !ok {
      return;
    }
    ok, unique := WriteMaps(writer, lib, counts);
    if !ok {
      return;
    }
    ok, detached := WriteKind(writer, lib, counts, NoMap);
    CountsAddUp(lib);
  }

  /** Where one part of the order ends the next begins. */
  lemma {:induction false} OrderJoints(lib: Library)
    requires lib.Valid()
    ensures KindUpTo(lib, SeveralMaps, 0) == []
    ensures KindUpTo(lib, SeveralMaps, |lib.entries|) == MapsUpTo(lib, 0, 0)
    ensures MapsUpTo(lib, |lib.maps|, 0) == KindUpTo(lib, NoMap, 0)
    ensures KindUpTo(lib, NoMap, |lib.entries|) == FileOrder(lib)
  {
    assert [] + Shared(lib) == Shared(lib) + [];
  }

  /** The check for shaders that were not written. */
  method CheckWritten(regions: seq<Region>, ghost lib: Library, ghost data: seq<seq<byte>>, ghost uniques: seq<bool>)
    returns (ok: bool)
    requires lib.Valid() && |uniques| == |FileOrder(lib)| && RegionsFor(data, FileOrder(lib), uniques, regions) &&
             |regions| == |lib.entries|
    ensures ok
  {
    for s := 0 to |regions| {
      NothingMissing(lib, regions, data, uniques, s);
      if regions[s].start < 0 {
        return false;
      }
    }
    ok := true;
  }

  /**
   * `layout_write_shader_code`. It fails exactly when a shader cannot be compressed: the check for shaders that were
   * not written never does.
   */
  method LayOutShaderCode(codec: Codec, method_: Option<nat>, codes: seq<seq<byte>>, lib: Library)
    returns (r: Result<Layout>, ghost data: seq<seq<byte>>)
    requires lib.Valid() && |codes| == |lib.entries|
    ensures DataFor(codec, method_, codes, data)
    ensures r.Success? ==>
      Laid(lib, data, r.value) && r.value.shared + r.value.unique + r.value.detached == |lib.entries|
    ensures r.Success? <==> forall s :: 0 <= s < |codes| ==> StoredCode(codec, method_, codes[s]).Some?
  {
    var writer := new ShaderCodeWriter(codec, method_, codes, |lib.maps|);
    data := writer.data;
    var ok, shared, unique, detached := WriteAll(writer, lib);
    if !ok {
      return Failure("shader cannot be compressed"), data;
    }
    WrittenAreStorable(lib, writer);
    var layout := Layout(writer.buffer, writer.regions, writer.mapRegions, shared, unique, detached);
    WrittenIsLaid(lib, data, writer.uniques, writer.buffer, layout);
    ok := CheckWritten(writer.regions, lib, data, writer.uniques);
    if !ok {
      return Failure("Did not write shader code into the shader code archive"), data;
    }
    r := Success(layout);
  }

  /** Once every shader has been written, every shader could be. */
  lemma {:induction false} WrittenAreStorable(lib: Library, writer: ShaderCodeWriter)
    requires lib.Valid() && writer.Valid() && writer.order == FileOrder(lib) && |writer.codes| == |lib.entries|
    ensures writer.AllStorable()
    ensures forall s :: 0 <= s < |writer.codes| ==> StoredCode(writer.codec, writer.method_, writer.codes[s]).Some?
  {
    forall s: nat | s < |writer.codes| ensures writer.Storable(s) {
      var j := PlaceOf(lib, s);
      assert writer.Storable(writer.order[j]);
    }
    forall s | 0 <= s < |writer.codes| ensures StoredCode(writer.codec, writer.method_, writer.codes[s]).Some? {
      assert writer.Storable(s);
    }
  }

  // ---- What the regions say ----

  /** The place of a shader in the file order. */
  lemma {:induction false} PlaceOf(lib: Library, s: nat) returns (j: nat)
    requires lib.Valid() && s < |lib.entries|
    ensures j < |FileOrder(lib)| && FileOrder(lib)[j] == s
  {
    FileOrderHoldsAll(lib);
    NumbersHold(|lib.entries|, s);
    assert s in FileOrder(lib);
    j :| 0 <= j < |FileOrder(lib)| && FileOrder(lib)[j] == s;
  }

  /** Each shader's region holds its bytes. */
  lemma {:induction false} RegionHoldsData(lib: Library, data: seq<seq<byte>>, layout: Layout, s: nat)
    requires lib.Valid() && Laid(lib, data, layout) && s < |lib.entries|
    ensures var r := layout.regions[s];
      0 <= r.start && r.start + r.size <= |layout.buffer| && layout.buffer[r.start..r.start + r.size] == data[s]
  {
    var j := PlaceOf(lib, s);
    assert RegionAt(lib, data, layout, j);
    DataAtPosition(data, FileOrder(lib), j);
  }

  lemma {:induction false} PlacesApart(data: seq<seq<byte>>, order: seq<nat>, j: nat, k: nat)
    requires j < k < |order|
    ensures PositionOf(data, order, j) + |DataOf(data, order[j])| <= PositionOf(data, order, k)
  {
    DataAtPosition(data, order, j);
    PositionsGrow(data, order, j + 1, k);
  }

  /** Regions of different shaders do not overlap. */
  lemma {:induction false} RegionsDisjoint(lib: Library, data: seq<seq<byte>>, layout: Layout, s: nat, t: nat)
    requires lib.Valid() && Laid(lib, data, layout) && s < |lib.entries| && t < |lib.entries| && s != t
    ensures var r, q := layout.regions[s], layout.regions[t]; r.start + r.size <= q.start || q.start + q.size <= r.start
  {
    var j := PlaceOf(lib, s);
    var k := PlaceOf(lib, t);
    assert RegionAt(lib, data, layout, j) && RegionAt(lib, data, layout, k);
    if j < k {
      PlacesApart(data, FileOrder(lib), j, k);
    } else {
      PlacesApart(data, FileOrder(lib), k, j);
    }
  }

  /** The shader among the first `n` whose bytes cover a position. */
  lemma {:induction false} CoveringPlace(data: seq<seq<byte>>, order: seq<nat>, p: nat, n: nat) returns (j: nat)
    requires n <= |order| && p < PositionOf(data, order, n)
    ensures j < n && PositionOf(data, order, j) <= p < PositionOf(data, order, j + 1)
  {
    if p >= PositionOf(data, order, n - 1) {
      j := n - 1;
    } else {
      j := CoveringPlace(data, order, p, n - 1);
    }
  }

  /** Every byte of the file belongs to some shader. */
  lemma {:induction false} RegionsCover(lib: Library, data: seq<seq<byte>>, layout: Layout, p: nat)
    requires lib.Valid() && Laid(lib, data, layout) && p < |layout.buffer|
    ensures exists s ::
      0 <= s < |layout.regions| && layout.regions[s].start <= p < layout.regions[s].start + layout.regions[s].size
  {
    var order := FileOrder(lib);
    assert order[..|order|] == order;
    var j := CoveringPlace(data, order, p, |order|);
    assert RegionAt(lib, data, layout, j);
    DataAtPosition(data, order, j);
    assert layout.regions[order[j]].start <= p;
  }

  // ---- What the map regions say ----

  /** Only map `m` names the shader, and only once. */
  ghost predicate OnlyIn(lib: Library, s: nat, m: nat)
    requires lib.Valid()
  {
    References(lib, s) == [m]
  }

  /** What is added to a shader's list from map `m` on is `m` or later. */
  lemma {:induction false} LaterNames(lib: Library, s: nat, m: nat, m': nat, i': nat)
    requires lib.Valid() && Reached(lib, m, 0) && Reached(lib, m', i') && m <= m'
    ensures MapsOf(lib, s, m, 0) <= MapsOf(lib, s, m', i')
    ensures forall k :: |MapsOf(lib, s, m, 0)| <= k < |MapsOf(lib, s, m', i')| ==> MapsOf(lib, s, m', i')[k] >= m
    decreases m', i'
  {
    if i' > 0 {
      LaterNames(lib, s, m, m', i' - 1);
    } else if m < m' {
      LaterNames(lib, s, m, m' - 1, lib.maps[m' - 1].count);
    }
  }

  /** A list of one map, cut before map `m` and after it. */
  lemma {:induction false} CutList(all: seq<nat>, before: seq<nat>, upTo: seq<nat>, m: nat)
    requires |all| == 1 && before <= upTo <= all
    requires (forall x :: x in before ==> x < m) && (forall x :: x in upTo ==> x <= m)
    requires forall k :: |before| <= k < |all| ==> all[k] >= m
    requires forall k :: |upTo| <= k < |all| ==> all[k] >= m + 1
    ensures |upTo| == |before| + if all == [m] then 1 else 0
  {
    var x := all[0];
    assert all == [x];
    assert |before| <= 0 ==> x >= m;
    assert |upTo| <= 0 ==> x >= m + 1;
    assert before != [] ==> before[0] in before && before[0] == all[0];
    assert upTo != [] ==> upTo[0] in upTo && upTo[0] == all[0];
  }

  /** Visiting map `m` adds exactly the shaders that only it names. */
  lemma {:induction false} MapAdds(lib: Library, m: nat, s: nat)
    requires lib.Valid() && m < |lib.maps|
    ensures multiset(Uniques(lib, m + 1, 0))[s] == multiset(Uniques(lib, m, 0))[s] + if OnlyIn(lib, s, m) then 1 else 0
  {
    UniquesOnce(lib, m + 1, 0, s);
    UniquesOnce(lib, m, 0, s);
    if Count(lib, s) == 1 {
      LaterNames(lib, s, m, m + 1, 0);
      LaterNames(lib, s, m, |lib.maps|, 0);
      LaterNames(lib, s, m + 1, |lib.maps|, 0);
      MapsOfAscend(lib, s, m, 0);
      MapsOfAscend(lib, s, m + 1, 0);
      CutList(References(lib, s), MapsOf(lib, s, m, 0), MapsOf(lib, s, m + 1, 0), m);
    }
  }

  lemma {:induction false} PartsOfOrder(lib: Library, m: nat)
    requires lib.Valid() && m < |lib.maps|
    ensures MapsUpTo(lib, m, 0) <= MapsUpTo(lib, m + 1, 0) <= FileOrder(lib)
  {
    UniquesPrefix(lib, m, 0, m + 1, 0);
    UniquesPrefix(lib, m + 1, 0, |lib.maps|, 0);
    PrefixThen(Shared(lib), Uniques(lib, m, 0), Uniques(lib, m + 1, 0));
    PrefixThen(Shared(lib), Uniques(lib, m + 1, 0), Uniques(lib, |lib.maps|, 0));
    assert Shared(lib) + Uniques(lib, |lib.maps|, 0) <= FileOrder(lib);
  }

  lemma {:induction false} InStretch(order: seq<nat>, a: nat, b: nat, j: nat)
    requires a <= b <= |order| && j < |order| && multiset(order)[order[j]] == 1
    ensures a <= j < b <==> multiset(order[..b])[order[j]] == multiset(order[..a])[order[j]] + 1
  {
    var s := order[j];
    assert order == order[..a] + order[a..b] + order[b..];
    assert order[..b] == order[..a] + order[a..b];
    assert multiset(order)[s] == multiset(order[..a])[s] + multiset(order[a..b])[s] + multiset(order[b..])[s];
    if j < a {
      assert order[..a][j] == s;
    } else if j < b {
      assert order[a..b][j - a] == s;
    } else {
      assert order[b..][j - b] == s;
    }
  }

  /** The places of map `m` hold exactly the shaders that only it names. */
  lemma {:induction false} PlacesOfMap(lib: Library, m: nat, j: nat)
    requires lib.Valid() && m < |lib.maps| && j < |FileOrder(lib)|
    ensures |MapsUpTo(lib, m, 0)| <= j < |MapsUpTo(lib, m + 1, 0)| <==> OnlyIn(lib, FileOrder(lib)[j], m)
  {
    var order, a, b := FileOrder(lib), MapsUpTo(lib, m, 0), MapsUpTo(lib, m + 1, 0);
    PartsOfOrder(lib, m);
    assert order[..|a|] == a && order[..|b|] == b;
    FileOrderHoldsAll(lib);
    NumbersHold(|lib.entries|, order[j]);
    assert order[j] in multiset(order);
    InStretch(order, |a|, |b|, j);
    MapAdds(lib, m, order[j]);
  }

  lemma {:induction false} MapRegionPositions(lib: Library, data: seq<seq<byte>>, layout: Layout, m: nat)
    requires lib.Valid() && Laid(lib, data, layout) && m < |lib.maps|
    ensures |MapsUpTo(lib, m, 0)| <= |MapsUpTo(lib, m + 1, 0)| <= |FileOrder(lib)|
    ensures var q := layout.mapRegions[m];
      q.start == PositionOf(data, FileOrder(lib), |MapsUpTo(lib, m, 0)|)
      && q.start + q.size == PositionOf(data, FileOrder(lib), |MapsUpTo(lib, m + 1, 0)|)
  {
    var order, a, b := FileOrder(lib), MapsUpTo(lib, m, 0), MapsUpTo(lib, m + 1, 0);
    assert MapRegionFor(lib, data, m, layout.mapRegions[m]);
    PartsOfOrder(lib, m);
    assert order[..|a|] == a && order[..|b|] == b;
  }

  /** The place of a shader, and its region as positions. */
  lemma {:induction false} RegionPositions(lib: Library, data: seq<seq<byte>>, layout: Layout, s: nat) returns (j: nat)
    requires lib.Valid() && Laid(lib, data, layout) && s < |lib.entries|
    ensures j < |FileOrder(lib)| && FileOrder(lib)[j] == s &&
            layout.regions[s].start == PositionOf(data, FileOrder(lib), j)
    ensures layout.regions[s].start + layout.regions[s].size == PositionOf(data, FileOrder(lib), j + 1)
    ensures layout.regions[s].unique == (Count(lib, s) == 1)
  {
    j := PlaceOf(lib, s);
    assert RegionAt(lib, data, layout, j);
    DataAtPosition(data, FileOrder(lib), j);
  }

  /** A map's region contains the bytes of the shaders that only this map names, and no byte of any other shader. */
  lemma {:induction false} MapRegionIsExact(lib: Library, data: seq<seq<byte>>, layout: Layout, m: nat, s: nat)
    requires lib.Valid() && Laid(lib, data, layout) && m < |lib.maps| && s < |lib.entries|
    ensures OnlyIn(lib, s, m) ==>
      layout.mapRegions[m].start <= layout.regions[s].start
      && layout.regions[s].start + layout.regions[s].size <= layout.mapRegions[m].start + layout.mapRegions[m].size
    ensures !OnlyIn(lib, s, m) ==>
      || layout.regions[s].start + layout.regions[s].size <= layout.mapRegions[m].start
      || layout.mapRegions[m].start + layout.mapRegions[m].size <= layout.regions[s].start
  {
    var j := RegionPositions(lib, data, layout, s);
    MapRegionPositions(lib, data, layout, m);
    PlacesOfMap(lib, m, j);
    MapPositions(data, FileOrder(lib), |MapsUpTo(lib, m, 0)|, |MapsUpTo(lib, m + 1, 0)|, j);
  }

  lemma {:induction false} MapPositions(data: seq<seq<byte>>, order: seq<nat>, a: nat, b: nat, j: nat)
    requires a <= b <= |order| && j < |order|
    ensures a <= j < b ==>
      PositionOf(data, order, a) <= PositionOf(data, order, j) &&
      PositionOf(data, order, j + 1) <= PositionOf(data, order, b)
    ensures j < a ==> PositionOf(data, order, j + 1) <= PositionOf(data, order, a)
    ensures j >= b ==> PositionOf(data, order, b) <= PositionOf(data, order, j)
  {
    if j < a {
      PositionsGrow(data, order, j + 1, a);
    } else if j < b {
      PositionsGrow(data, order, a, j);
      PositionsGrow(data, order, j + 1, b);
    } else {
      PositionsGrow(data, order, b, j);
    }
  }

  // ---- Preload entries ----

  /** `FFileCachePreloadEntry`. */
  datatype PreloadEntry = PreloadEntry(offset: int, size: nat)

  ghost predicate Covers(entry: PreloadEntry, r: Region) {
    entry.offset <= r.start && r.start + r.size <= entry.offset + entry.size
  }

  /** A shader whose bytes lie in an entry, or that has none. */
  ghost predicate Preloaded(entries: seq<PreloadEntry>, r: Region) {
    r.size == 0 || exists e :: e in entries && Covers(e, r)
  }

  function EntryOf(r: Region): PreloadEntry { PreloadEntry(r.start, r.size) }

  /** The first `n` places of a map that name shared shaders. */
  ghost function SharedPlaces(lib: Library, layout: Layout, m: nat, n: nat): nat
    requires lib.Valid() && m < |lib.maps| && n <= lib.maps[m].count && |layout.regions| == |lib.entries|
  {
    if n == 0 then 0 else SharedPlaces(lib, layout, m, n - 1) + if layout.regions[ShaderAt(lib, m, n - 1)].unique
      then 0 else 1
  }

  /** The entry is the map's own region or that of a shared shader that the map names. */
  ghost predicate Wanted(lib: Library, layout: Layout, m: nat, e: PreloadEntry)
    requires lib.Valid() && m < |lib.maps| == |layout.mapRegions| && |layout.regions| == |lib.entries|
  {
    || (layout.mapRegions[m].size > 0 && e == PreloadEntry(layout.mapRegions[m].start, layout.mapRegions[m].size))
    || exists i :: 0 <= i < lib.maps[m].count && SharedAt(lib, layout, m, i, e)
  }

  ghost predicate SharedAt(lib: Library, layout: Layout, m: nat, i: nat, e: PreloadEntry)
    requires lib.Valid() && m < |lib.maps| && i < lib.maps[m].count && |layout.regions| == |lib.entries|
  {
    var r := layout.regions[ShaderAt(lib, m, i)]; !r.unique && e == EntryOf(r)
  }

  /**
   * The preload entries of one map: its own region if it is not empty, and the region of each shared shader. They
   * cover every shader that the map names, and nothing else is loaded.
   */
  method PreloadsOf(lib: Library, layout: Layout, m: nat, ghost data: seq<seq<byte>>)
    returns (entries: seq<PreloadEntry>)
    requires lib.Valid() && Laid(lib, data, layout) && m < |lib.maps|
    ensures forall i :: 0 <= i < lib.maps[m].count ==> Preloaded(entries, layout.regions[ShaderAt(lib, m, i)])
    ensures forall e ::
      e in entries ==> e.offset >= 0 && e.offset + e.size <= |layout.buffer| && Wanted(lib, layout, m, e)
    ensures |entries| == SharedPlaces(lib, layout, m, lib.maps[m].count) + if layout.mapRegions[m].size > 0
      then 1 else 0
  {
    assert lib.maps[m] in lib.maps;
    entries := [];
    var own := layout.mapRegions[m];
    MapRegionInFile(lib, data, layout, m);
    if own.size > 0 {
      entries := [PreloadEntry(own.start, own.size)];
    }
    for i := 0 to lib.maps[m].count
      invariant own.size > 0 ==> PreloadEntry(own.start, own.size) in entries
      invariant forall k :: 0 <= k < i ==> Preloaded(entries, layout.regions[ShaderAt(lib, m, k)])
      invariant forall e ::
        e in entries ==> e.offset >= 0 && e.offset + e.size <= |layout.buffer| && Wanted(lib, layout, m, e)
      invariant |entries| == SharedPlaces(lib, layout, m, i) + if own.size > 0 then 1 else 0
    {
      ghost var before := entries;
      entries := PreloadPlace(lib, layout, m, i, entries, data);
      forall k | 0 <= k < i ensures Preloaded(entries, layout.regions[ShaderAt(lib, m, k)]) {
        StillPreloaded(before, entries, layout.regions[ShaderAt(lib, m, k)]);
      }
    }
  }

  /** One place of a map: an entry if its shader is shared; otherwise the map's own region has it. */
  method PreloadPlace(lib: Library, layout: Layout, m: nat, i: nat, entries: seq<PreloadEntry>,
                      ghost data: seq<seq<byte>>)
    returns (entries': seq<PreloadEntry>)
    requires lib.Valid() && Laid(lib, data, layout) && m < |lib.maps| && i < lib.maps[m].count
    requires layout.mapRegions[m].size > 0 ==>
      PreloadEntry(layout.mapRegions[m].start, layout.mapRegions[m].size) in entries
    ensures entries <= entries' && Preloaded(entries', layout.regions[ShaderAt(lib, m, i)])
    ensures |entries'| == |entries| + if layout.regions[ShaderAt(lib, m, i)].unique then 0 else 1
    ensures forall e ::
      e in entries' ==>
      e in entries || (e.offset >= 0 && e.offset + e.size <= |layout.buffer| && Wanted(lib, layout, m, e))
  {
    entries' := entries;
    var own, s := layout.mapRegions[m], ShaderAt(lib, m, i);
    var r := layout.regions[s];
    RegionHoldsData(lib, data, layout, s);
    if !r.unique {
      entries' := entries + [EntryOf(r)];
      assert EntryOf(r) in entries' && Covers(EntryOf(r), r);
      assert SharedAt(lib, layout, m, i, EntryOf(r));
    } else {
      UniqueInOwnRegion(lib, data, layout, m, i);
      if r.size > 0 {
        assert Covers(PreloadEntry(own.start, own.size), r);
      }
    }
  }

  function ShaderAt(lib: Library, m: nat, i: nat): (s: nat)
    requires lib.Valid() && m < |lib.maps| && i < lib.maps[m].count
    ensures s < |lib.entries|
  {
    assert lib.maps[m] in lib.maps;
    assert lib.indices[lib.maps[m].indicesOffset + i] in lib.indices;
    lib.indices[lib.maps[m].indicesOffset + i]
  }

  lemma {:induction false} StillPreloaded(before: seq<PreloadEntry>, entries: seq<PreloadEntry>, r: Region)
    requires Preloaded(before, r) && before <= entries
    ensures Preloaded(entries, r)
  {
    if r.size > 0 {
      var e :| e in before && Covers(e, r);
      assert e in entries;
    }
  }

  lemma {:induction false} MapRegionInFile(lib: Library, data: seq<seq<byte>>, layout: Layout, m: nat)
    requires lib.Valid() && Laid(lib, data, layout) && m < |lib.maps|
    ensures layout.mapRegions[m].start >= 0 && layout.mapRegions[m].start + layout.mapRegions[m].size <= |layout.buffer|
  {
    var order, b := FileOrder(lib), MapsUpTo(lib, m + 1, 0);
    assert MapRegionFor(lib, data, m, layout.mapRegions[m]);
    PartsOfOrder(lib, m);
    JoinedConcat(data, b, order[|b|..]);
    assert b + order[|b|..] == order;
  }

  /** A shader that a map names and that is named once lies in the map's region. */
  lemma {:induction false} UniqueInOwnRegion(lib: Library, data: seq<seq<byte>>, layout: Layout, m: nat, i: nat)
    requires lib.Valid() && Laid(lib, data, layout) && m < |lib.maps| && i < lib.maps[m].count
    requires layout.regions[ShaderAt(lib, m, i)].unique
    ensures var r, q := layout.regions[ShaderAt(lib, m, i)], layout.mapRegions[m];
      q.start <= r.start && r.start + r.size <= q.start + q.size
  {
    var s := ShaderAt(lib, m, i);
    var j := PlaceOf(lib, s);
    assert RegionAt(lib, data, layout, j);
    UniquesPrefix(lib, m, i + 1, |lib.maps|, 0);
    assert MapsOf(lib, s, m, i + 1) == MapsOf(lib, s, m, i) + [m];
    assert MapsOf(lib, s, m, i + 1) <= References(lib, s);
    assert OnlyIn(lib, s, m);
    MapRegionIsExact(lib, data, layout, m, s);
  }
}
