/** Rebuilding the code file of a shader library: shared shaders, then each map's own, then those of no map. */
module ShaderCodeLayout {
  import opened Package
  import opened Bytes
  import opened Codecs
  import opened ShaderGroups

  // ---- The order of shaders in the file ----

  /** How many times shader maps name a shader. */
  ghost function Count(lib: Library, s: nat): nat
    requires lib.Valid()
  {
    |References(lib, s)|
  }

  /** Shaders named several times, and shaders that nobody names. */
  datatype Kind = SeveralMaps | NoMap

  predicate IsOf(kind: Kind, count: nat) {
    match kind
    case SeveralMaps => count > 1
    case NoMap => count == 0
  }

  ghost function Counts(lib: Library): (counts: seq<nat>)
    requires lib.Valid()
    ensures |counts| == |lib.entries|
  {
    seq(|lib.entries|, s requires 0 <= s < |lib.entries| => Count(lib, s))
  }

  /** Shaders of a kind below `n`, in ascending order. */
  ghost function Selected(counts: seq<nat>, kind: Kind, n: nat): seq<nat>
    requires n <= |counts|
  {
    if n == 0 then [] else Selected(counts, kind, n - 1) + if IsOf(kind, counts[n - 1]) then [n - 1] else []
  }

  /**
   * The shaders named once, in the order in which the maps before `m` and the first `i` places of map `m` name them.
   */
  ghost function Uniques(lib: Library, m: nat, i: nat): seq<nat>
    requires lib.Valid() && (if m < |lib.maps| then i <= lib.maps[m].count else m == |lib.maps| && i == 0)
    decreases m, i
  {
    if i > 0 then
      assert lib.maps[m] in lib.maps;
      var s := lib.indices[lib.maps[m].indicesOffset + i - 1];
      Uniques(lib, m, i - 1) + if Count(lib, s) == 1 then [s] else []
    else if m == 0 then []
    else Uniques(lib, m - 1, lib.maps[m - 1].count)
  }

  ghost function Shared(lib: Library): seq<nat>
    requires lib.Valid()
  {
    Selected(Counts(lib), SeveralMaps, |lib.entries|)
  }

  ghost function Detached(lib: Library): seq<nat>
    requires lib.Valid()
  {
    Selected(Counts(lib), NoMap, |lib.entries|)
  }

  ghost function FileOrder(lib: Library): seq<nat>
    requires lib.Valid()
  {
    Shared(lib) + Uniques(lib, |lib.maps|, 0) + Detached(lib)
  }

  lemma {:induction false} CountAppend(list: seq<nat>, x: nat, s: nat)
    ensures multiset(list + [x])[s] == multiset(list)[s] + if x == s then 1 else 0
    ensures list + [] == list
  {
  }

  lemma {:induction false} SelectedOnce(counts: seq<nat>, kind: Kind, n: nat, s: nat)
    requires n <= |counts|
    ensures multiset(Selected(counts, kind, n))[s] == if s < n && IsOf(kind, counts[s]) then 1 else 0
  {
    if n > 0 {
      SelectedOnce(counts, kind, n - 1, s);
      CountAppend(Selected(counts, kind, n - 1), n - 1, s);
    }
  }

  lemma {:induction false} UniquesOnce(lib: Library, m: nat, i: nat, s: nat)
    requires lib.Valid() && (if m < |lib.maps| then i <= lib.maps[m].count else m == |lib.maps| && i == 0)
    ensures multiset(Uniques(lib, m, i))[s] == if Count(lib, s) == 1 then |MapsOf(lib, s, m, i)| else 0
    decreases m, i
  {
    if i > 0 {
      assert lib.maps[m] in lib.maps;
      UniquesOnce(lib, m, i - 1, s);
    } else if m > 0 {
      UniquesOnce(lib, m - 1, lib.maps[m - 1].count, s);
    }
  }

  /** Nobody names a shader that the library does not have. */
  lemma {:induction false} UnknownNotNamed(lib: Library, m: nat, i: nat, s: nat)
    requires lib.Valid() && (if m < |lib.maps| then i <= lib.maps[m].count else m == |lib.maps| && i == 0)
    requires s >= |lib.entries|
    ensures MapsOf(lib, s, m, i) == []
    decreases m, i
  {
    if i > 0 {
      assert lib.maps[m] in lib.maps;
      assert lib.indices[lib.maps[m].indicesOffset + i - 1] in lib.indices;
      UnknownNotNamed(lib, m, i - 1, s);
    } else if m > 0 {
      UnknownNotNamed(lib, m - 1, lib.maps[m - 1].count, s);
    }
  }

  lemma {:induction false} NumbersHold(n: nat, s: nat)
    ensures multiset(Numbers(n))[s] == if s < n then 1 else 0
  {
    if n > 0 {
      NumbersHold(n - 1, s);
      assert Numbers(n) == Numbers(n - 1) + [n - 1];
    }
  }

  /** Every shader of the library is written once. */
  lemma {:induction false} FileOrderHoldsAll(lib: Library)
    requires lib.Valid()
    ensures multiset(FileOrder(lib)) == multiset(Numbers(|lib.entries|))
  {
    var n := |lib.entries|;
    forall s: nat ensures multiset(FileOrder(lib))[s] == multiset(Numbers(n))[s] {
      SelectedOnce(Counts(lib), SeveralMaps, n, s);
      SelectedOnce(Counts(lib), NoMap, n, s);
      UniquesOnce(lib, |lib.maps|, 0, s);
      NumbersHold(n, s);
      if s >= n {
        UnknownNotNamed(lib, |lib.maps|, 0, s);
      }
    }
  }

  // ---- Positions ----

  ghost function DataOf(data: seq<seq<byte>>, s: nat): seq<byte> {
    if s < |data| then data[s] else []
  }

  /** The data of shaders, one after the other. */
  ghost function Joined(data: seq<seq<byte>>, order: seq<nat>): seq<byte> {
    if order == [] then [] else Joined(data, order[..|order| - 1]) + DataOf(data, order[|order| - 1])
  }

  lemma {:induction false} JoinedAppend(data: seq<seq<byte>>, order: seq<nat>, s: nat)
    ensures Joined(data, order + [s]) == Joined(data, order) + DataOf(data, s)
  {
    assert (order + [s])[..|order|] == order;
  }

  lemma {:induction false} Associate<T>(a: seq<T>, b: seq<T>, c: seq<T>)
    ensures a + b + c == a + (b + c)
  {
  }

  lemma {:induction false} JoinedConcat(data: seq<seq<byte>>, a: seq<nat>, b: seq<nat>)
    ensures Joined(data, a + b) == Joined(data, a) + Joined(data, b)
  {
    if b == [] {
      assert a + b == a;
    } else {
      var front, last := b[..|b| - 1], b[|b| - 1];
      JoinedConcat(data, a, front);
      JoinedAppend(data, a + front, last);
      Associate(a, front, [last]);
      assert b == front + [last];
      Associate(Joined(data, a), Joined(data, front), DataOf(data, last));
    }
  }

  /** Where the `j`-th shader of an order starts. */
  ghost function PositionOf(data: seq<seq<byte>>, order: seq<nat>, j: nat): nat
    requires j <= |order|
  {
    |Joined(data, order[..j])|
  }

  /** The bytes of the `j`-th shader are at its position. */
  lemma {:induction false} DataAtPosition(data: seq<seq<byte>>, order: seq<nat>, j: nat)
    requires j < |order|
    ensures PositionOf(data, order, j + 1)
      == PositionOf(data, order, j) + |DataOf(data, order[j])| <= |Joined(data, order)|
    ensures Joined(data, order)[PositionOf(data, order, j)..PositionOf(data, order, j + 1)] == DataOf(data, order[j])
  {
    var front, rest := order[..j], order[j + 1..];
    JoinedAppend(data, front, order[j]);
    assert order[..j + 1] == front + [order[j]];
    JoinedConcat(data, order[..j + 1], rest);
    assert order == order[..j + 1] + rest;
    SliceInMiddle(Joined(data, front), DataOf(data, order[j]), Joined(data, rest));
  }

  lemma {:induction false} SliceInMiddle(a: seq<byte>, b: seq<byte>, c: seq<byte>)
    ensures (a + b + c)[|a|..|a| + |b|] == b
  {
  }

  lemma {:induction false} PositionsGrow(data: seq<seq<byte>>, order: seq<nat>, i: nat, j: nat)
    requires i <= j <= |order|
    ensures PositionOf(data, order, i) <= PositionOf(data, order, j)
    decreases j
  {
    if i < j {
      PositionsGrow(data, order, i, j - 1);
      DataAtPosition(data, order, j - 1);
    }
  }

  lemma {:induction false} PositionInPrefix(data: seq<seq<byte>>, order: seq<nat>, more: seq<nat>, j: nat)
    requires j <= |order|
    ensures PositionOf(data, order + more, j) == PositionOf(data, order, j)
  {
    assert (order + more)[..j] == order[..j];
  }

  // ---- Writing ----

  /** Start (or -1), size, and whether the shader belongs to a single map. */
  datatype Region = Region(start: int, size: nat, unique: bool)

  datatype MapRegion = MapRegion(start: int, size: nat)

  /** A shader's bytes in the file: compressed if there is a method and the result is smaller. */
  function StoredCode(codec: Codec, method_: Option<nat>, code: seq<byte>): Option<seq<byte>> {
    if method_.None? then Some(code)
    else
      match codec.compress(method_.value, code)
      case None => None
      case Some(c) => if |c| < |code| then Some(c) else Some(code)
  }

  ghost function StoredOrNothing(codec: Codec, method_: Option<nat>, code: seq<byte>): seq<byte> {
    match StoredCode(codec, method_, code)
    case None => []
    case Some(d) => d
  }

  /** The `j`-th shader's region says where its data is. */
  ghost predicate RegionFits(data: seq<seq<byte>>, order: seq<nat>, uniques: seq<bool>, regions: seq<Region>, j: nat)
    requires j < |order| == |uniques|
  {
    order[j] < |regions| &&
      regions[order[j]] == Region(PositionOf(data, order, j), |DataOf(data, order[j])|, uniques[j])
  }

  /** The regions of the shaders written so far, and -1 for the others. */
  ghost predicate RegionsFor(data: seq<seq<byte>>, order: seq<nat>, uniques: seq<bool>, regions: seq<Region>)
    requires |uniques| == |order|
  {
    && (forall j :: 0 <= j < |order| ==> RegionFits(data, order, uniques, regions, j))
    && (forall s: nat :: s < |regions| ==> s in order || Untouched(regions, s))
  }

  ghost predicate Untouched(regions: seq<Region>, s: nat)
    requires s < |regions|
  {
    regions[s].start == -1
  }

  lemma {:induction false} RegionAppended(data: seq<seq<byte>>, order: seq<nat>, uniques: seq<bool>,
                                          regions: seq<Region>, s: nat, unique: bool)
    requires |uniques| == |order| && RegionsFor(data, order, uniques, regions) && s < |regions| && s !in order
    ensures RegionsFor(data, order + [s], uniques + [unique],
                       regions[s := Region(|Joined(data, order)|, |DataOf(data, s)|, unique)])
  {
    var regions' := regions[s := Region(|Joined(data, order)|, |DataOf(data, s)|, unique)];
    assert order[..|order|] == order;
    forall j | 0 <= j < |order| + 1 ensures RegionFits(data, order + [s], uniques + [unique], regions', j) {
      PositionInPrefix(data, order, [s], j);
      if j < |order| {
        assert RegionFits(data, order, uniques, regions, j) && order[j] in order;
      }
    }
    forall t: nat | t < |regions| && t !in order + [s] ensures Untouched(regions', t) {
      assert s in order + [s] && (t in order ==> t in order + [s]);
      assert Untouched(regions, t);
    }
  }

  ghost predicate DataFor(codec: Codec, method_: Option<nat>, codes: seq<seq<byte>>, data: seq<seq<byte>>) {
    && |data| == |codes|
    && forall s ::
      0 <= s < |codes| ==> StoredCode(codec, method_, codes[s]).Some? ==>
      Some(data[s]) == StoredCode(codec, method_, codes[s])
  }

  /** The file after the shaders of `order`. */
  ghost predicate Written(data: seq<seq<byte>>, order: seq<nat>, uniques: seq<bool>, buffer: seq<byte>,
                          regions: seq<Region>)
  {
    |uniques| == |order| && buffer == Joined(data, order) && RegionsFor(data, order, uniques, regions)
  }

  lemma {:induction false} WrittenOneMore(data: seq<seq<byte>>, order: seq<nat>, uniques: seq<bool>, buffer: seq<byte>,
                                          regions: seq<Region>, s: nat, unique: bool)
    requires Written(data, order, uniques, buffer, regions) && s < |regions| && s < |data| && s !in order
    ensures Written(data, order + [s], uniques + [unique], buffer + data[s],
                    regions[s := Region(|buffer|, |data[s]|, unique)])
  {
    RegionAppended(data, order, uniques, regions, s, unique);
    JoinedAppend(data, order, s);
  }

  /** The writer that the layout thread sends its messages to; the compression in between keeps their order. */
  class ShaderCodeWriter {
    const codec: Codec
    const method_: Option<nat>
    const codes: seq<seq<byte>>
    var buffer: seq<byte>
    var regions: seq<Region>
    var mapRegions: seq<MapRegion>
    var mapStart: nat
    ghost var order: seq<nat>
    ghost var uniques: seq<bool>
    ghost const data: seq<seq<byte>>

    ghost predicate Valid()
      reads this`buffer, this`regions, this`order, this`uniques
    {
      DataFor(codec, method_, codes, data) && |regions| == |codes| && Written(data, order, uniques, buffer, regions) &&
        OnlyStorable(order)
    }

    /** The shader needs no compression or can be compressed. */
    ghost predicate Storable(s: nat) {
      s < |codes| && StoredCode(codec, method_, codes[s]).Some?
    }

    ghost predicate OnlyStorable(order: seq<nat>) {
      forall j :: 0 <= j < |order| ==> Storable(order[j])
    }

    ghost predicate AllStorable() {
      forall s: nat :: s < |codes| ==> Storable(s)
    }

    constructor (codec: Codec, method_: Option<nat>, codes: seq<seq<byte>>, mapCount: nat)
      ensures Valid() && order == [] && |mapRegions| == mapCount
      ensures this.codec == codec && this.method_ == method_ && this.codes == codes
    {
      this.codec, this.method_, this.codes := codec, method_, codes;
      buffer, order, uniques, mapStart := [], [], [], 0;
      regions := seq(|codes|, _ => Region(-1, 0, false));
      mapRegions := seq(mapCount, _ => MapRegion(-1, 0));
      data := seq(|codes|, s requires 0 <= s < |codes| => StoredOrNothing(codec, method_, codes[s]));
    }

    method StartMap()
      requires Valid()
      modifies this`mapStart
      ensures Valid() && mapStart == |buffer|
    {
      mapStart := |buffer|;
    }

    method EndMap(m: nat)
      requires Valid() && m < |mapRegions| && mapStart <= |buffer|
      modifies this`mapRegions
      ensures Valid() && mapRegions == old(mapRegions)[m := MapRegion(mapStart, |buffer| - mapStart)]
    {
      mapRegions := mapRegions[m := MapRegion(mapStart, |buffer| - mapStart)];
    }

    method Write(s: nat, unique: bool) returns (ok: bool)
      requires Valid() && s < |codes| && s !in order
      modifies this`buffer, this`regions, this`order, this`uniques
      ensures ok <==> Storable(s)
      ensures ok ==> Valid() && order == old(order) + [s] && uniques == old(uniques) + [unique]
      ensures method_.None? ==> ok && buffer == old(buffer) + codes[s]
      ensures method_.Some? ==>
        var compressed := codec.compress(method_.value, codes[s]);
        && (ok <==> compressed.Some?)
        && (ok && |compressed.value| < |codes[s]| ==> buffer == old(buffer) + compressed.value)
        && (ok && |compressed.value| >= |codes[s]| ==> buffer == old(buffer) + codes[s])
    {
      var stored := StoredCode(codec, method_, codes[s]);
      ok := stored.Some?;
      if ok {
        WrittenOneMore(data, order, uniques, buffer, regions, s, unique);
        regions := regions[s := Region(|buffer|, |stored.value|, unique)];
        buffer := buffer + stored.value;
        order, uniques := order + [s], uniques + [unique];
      }
    }
  }
}
