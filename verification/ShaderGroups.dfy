/** Grouping the shaders of a library by the shader maps that reference them, and splitting large groups. */
module ShaderGroups {
  import opened Sorting

  /** `FShaderMapEntry` as far as shaders are concerned: a slice of the shader indices. */
  datatype MapEntry = MapEntry(indicesOffset: nat, count: nat)

  /** `FShaderCodeEntry`. */
  datatype CodeEntry = CodeEntry(offset: nat, size: nat, uncompressedSize: nat, frequency: nat)

  /** `FShaderLibraryHeader` without hashes and preload entries. */
  datatype Library = Library(maps: seq<MapEntry>, indices: seq<nat>, entries: seq<CodeEntry>) {
    ghost predicate Valid() {
      && (forall m :: m in maps ==> m.indicesOffset + m.count <= |indices|)
      && (forall s :: s in indices ==> s < |entries|)
    }

    ghost predicate PositiveSizes() {
      forall e :: e in entries ==> e.uncompressedSize > 0
    }

    function Size(s: nat): nat {
      if s < |entries| then entries[s].uncompressedSize else 0
    }
  }

  // ---- Which maps reference a shader ----

  /**
   * The maps among the first `m`, and the first `i` places of map `m`, that name shader `s`, once for each time they
   * do.
   */
  ghost function MapsOf(lib: Library, s: nat, m: nat, i: nat): seq<nat>
    requires lib.Valid() && (if m < |lib.maps| then i <= lib.maps[m].count else m == |lib.maps| && i == 0)
    decreases m, i
  {
    if i > 0 then
      assert lib.maps[m] in lib.maps;
      MapsOf(lib, s, m, i - 1) + if lib.indices[lib.maps[m].indicesOffset + i - 1] == s then [m] else []
    else if m == 0 then []
    else MapsOf(lib, s, m - 1, lib.maps[m - 1].count)
  }

  ghost predicate Ascending(list: seq<nat>) {
    forall i, j :: 0 <= i < j < |list| ==> list[i] <= list[j]
  }

  /** The lists come out in ascending order, so the sort that follows leaves them alone. */
  lemma {:induction false} MapsOfAscend(lib: Library, s: nat, m: nat, i: nat)
    requires lib.Valid() && (if m < |lib.maps| then i <= lib.maps[m].count else m == |lib.maps| && i == 0)
    ensures Ascending(MapsOf(lib, s, m, i))
    ensures forall x :: x in MapsOf(lib, s, m, i) ==> x < m || (x == m && i > 0)
    decreases m, i
  {
    if i > 0 {
      assert lib.maps[m] in lib.maps;
      MapsOfAscend(lib, s, m, i - 1);
      var list := MapsOf(lib, s, m, i - 1);
      forall j | 0 <= j < |list| ensures list[j] <= m {
        assert list[j] in list;
      }
    } else if m > 0 {
      MapsOfAscend(lib, s, m - 1, lib.maps[m - 1].count);
    }
  }

  ghost function References(lib: Library, s: nat): seq<nat>
    requires lib.Valid()
  {
    MapsOf(lib, s, |lib.maps|, 0)
  }

  /** The list of referencing maps of every shader. */
  method ReferencingMaps(lib: Library) returns (refs: seq<seq<nat>>)
    requires lib.Valid()
    ensures |refs| == |lib.entries| && forall s :: 0 <= s < |refs| ==> refs[s] == References(lib, s)
  {
    var table: array<seq<nat>> := new seq<nat>[|lib.entries|](_ => []);
    for m := 0 to |lib.maps|
      invariant forall s :: 0 <= s < table.Length ==> table[s] == MapsOf(lib, s, m, 0)
    {
      assert lib.maps[m] in lib.maps;
      for i := 0 to lib.maps[m].count
        invariant forall s :: 0 <= s < table.Length ==> table[s] == MapsOf(lib, s, m, i)
      {
        var shader := lib.indices[lib.maps[m].indicesOffset + i];
        assert shader in lib.indices;
        table[shader] := table[shader] + [m];
      }
    }
    refs := table[..];
  }

  // ---- The order of shaders ----

  predicate LexLe(a: seq<nat>, b: seq<nat>) {
    a == [] || (b != [] && (a[0] < b[0] || (a[0] == b[0] && LexLe(a[1..], b[1..]))))
  }

  /** By number of maps, then by the maps. */
  predicate ListLe(a: seq<nat>, b: seq<nat>) {
    |a| < |b| || (|a| == |b| && LexLe(a, b))
  }

  lemma {:induction false} LexTotal(a: seq<nat>, b: seq<nat>)
    ensures LexLe(a, b) || LexLe(b, a)
    ensures LexLe(a, b) && LexLe(b, a) ==> a == b
  {
    if a != [] && b != [] && a[0] == b[0] {
      LexTotal(a[1..], b[1..]);
      assert a == [a[0]] + a[1..] && b == [b[0]] + b[1..];
    }
  }

  lemma {:induction false} LexTransitive(a: seq<nat>, b: seq<nat>, c: seq<nat>)
    requires LexLe(a, b) && LexLe(b, c)
    ensures LexLe(a, c)
  {
    if a != [] && a[0] == b[0] == c[0] {
      LexTransitive(a[1..], b[1..], c[1..]);
    }
  }

  lemma {:induction false} ListOrder(a: seq<nat>, b: seq<nat>, c: seq<nat>)
    ensures ListLe(a, b) || ListLe(b, a)
    ensures ListLe(a, b) && ListLe(b, a) ==> a == b
    ensures ListLe(a, b) && ListLe(b, c) ==> ListLe(a, c)
  {
    LexTotal(a, b);
    if LexLe(a, b) && LexLe(b, c) {
      LexTransitive(a, b, c);
    }
  }

  function RefOf(refs: seq<seq<nat>>, s: nat): seq<nat> {
    if s < |refs| then refs[s] else []
  }

  predicate ShaderLe(refs: seq<seq<nat>>, a: nat, b: nat) {
    if RefOf(refs, a) != RefOf(refs, b) then ListLe(RefOf(refs, a), RefOf(refs, b)) else a <= b
  }

  lemma {:induction false} ShaderOrder(refs: seq<seq<nat>>, le: (nat, nat) -> bool)
    requires forall a: nat, b: nat :: le(a, b) == ShaderLe(refs, a, b)
    ensures TotalOrder(le)
  {
    forall a: nat, b: nat ensures le(a, b) || le(b, a) {
      ListOrder(RefOf(refs, a), RefOf(refs, b), []);
    }
    forall a: nat, b: nat, c: nat | le(a, b) && le(b, c) ensures le(a, c) {
      ListOrder(RefOf(refs, a), RefOf(refs, b), RefOf(refs, c));
      ListOrder(RefOf(refs, a), RefOf(refs, c), []);
      ListOrder(RefOf(refs, b), RefOf(refs, c), RefOf(refs, a));
    }
  }

  // ---- Groups ----

  /** All shaders of all groups. */
  ghost function AllOf(groups: seq<seq<nat>>): multiset<nat> {
    if groups == [] then multiset{} else AllOf(groups[..|groups| - 1]) + multiset(groups[|groups| - 1])
  }

  lemma {:induction false} AllOfAppend(groups: seq<seq<nat>>, g: seq<nat>)
    ensures AllOf(groups + [g]) == AllOf(groups) + multiset(g)
  {
    assert (groups + [g])[..|groups|] == groups;
  }

  lemma {:induction false} AllOfConcat(a: seq<seq<nat>>, b: seq<seq<nat>>)
    ensures AllOf(a + b) == AllOf(a) + AllOf(b)
  {
    if b == [] {
      assert a + b == a;
    } else {
      var front, last := b[..|b| - 1], b[|b| - 1];
      AllOfConcat(a, front);
      AllOfAppend(a + front, last);
      assert a + b == a + front + [last];
    }
  }

  /** A non-empty group whose shaders have the same list of maps. */
  ghost predicate Uniform(refs: seq<seq<nat>>, g: seq<nat>) {
    g != [] && forall s :: s in g ==> RefOf(refs, s) == RefOf(refs, g[0])
  }

  ghost predicate ListLt(a: seq<nat>, b: seq<nat>) {
    ListLe(a, b) && a != b
  }

  /** Uniform groups whose lists strictly ascend. */
  ghost predicate Streaks(refs: seq<seq<nat>>, groups: seq<seq<nat>>) {
    && (forall k :: 0 <= k < |groups| ==> Uniform(refs, groups[k]))
    && (forall k, l :: 0 <= k < l < |groups| ==> ListLt(RefOf(refs, groups[k][0]), RefOf(refs, groups[l][0])))
  }

  lemma {:induction false} StreaksAppend(refs: seq<seq<nat>>, groups: seq<seq<nat>>, g: seq<nat>)
    requires Streaks(refs, groups) && Uniform(refs, g)
    requires groups != [] ==> ListLt(RefOf(refs, groups[|groups| - 1][0]), RefOf(refs, g[0]))
    ensures Streaks(refs, groups + [g])
  {
    forall k | 0 <= k < |groups| ensures ListLt(RefOf(refs, groups[k][0]), RefOf(refs, g[0])) {
      var last := |groups| - 1;
      if k < last {
        ListOrder(RefOf(refs, groups[k][0]), RefOf(refs, groups[last][0]), RefOf(refs, g[0]));
        ListOrder(RefOf(refs, groups[k][0]), RefOf(refs, groups[last][0]), []);
      }
    }
  }

  /** Some shaders have been put into finished groups and a current one. */
  ghost predicate Cutting(refs: seq<seq<nat>>, seen: seq<nat>, groups: seq<seq<nat>>, current: seq<nat>) {
    && AllOf(groups) + multiset(current) == multiset(seen)
    && (if current == []
        then seen == [] && groups == []
        else Streaks(refs, groups + [current]) && seen != [] && seen[|seen| - 1] in current)
  }

  ghost predicate Ascend(g: seq<nat>) {
    forall i, j :: 0 <= i < j < |g| ==> g[i] <= g[j]
  }

  /** Groups in ascending order, the current one ending with the shader last seen. */
  ghost predicate InOrder(groups: seq<seq<nat>>, current: seq<nat>, seen: seq<nat>) {
    && (forall k :: 0 <= k < |groups| ==> Ascend(groups[k]))
    && Ascend(current) && (current != [] ==> seen != [] && current[|current| - 1] == seen[|seen| - 1])
  }

  lemma {:induction false} OrderExtended(groups: seq<seq<nat>>, current: seq<nat>, seen: seq<nat>, s: nat)
    requires InOrder(groups, current, seen) && current != [] && current[|current| - 1] <= s
    ensures InOrder(groups, current + [s], seen + [s])
  {
  }

  lemma {:induction false} OrderAtCut(groups: seq<seq<nat>>, current: seq<nat>, seen: seq<nat>, s: nat)
    requires InOrder(groups, current, seen)
    ensures InOrder(groups + [current], [s], seen + [s])
  {
  }

  /** The next shader starts a group if its list is not the one last seen. */
  method CutStep(refs: seq<seq<nat>>, s: nat, groups: seq<seq<nat>>, current: seq<nat>, lastSeen: seq<nat>,
                 ghost seen: seq<nat>)
    returns (groups': seq<seq<nat>>, current': seq<nat>, lastSeen': seq<nat>)
    requires Cutting(refs, seen, groups, current) && (seen != [] ==> ShaderLe(refs, seen[|seen| - 1], s))
    requires current != [] ==> lastSeen == RefOf(refs, current[0])
    requires InOrder(groups, current, seen)
    ensures Cutting(refs, seen + [s], groups', current') && current' != [] && lastSeen' == RefOf(refs, current'[0])
    ensures InOrder(groups', current', seen + [s])
  {
    if current == [] {
      StreaksAppend(refs, [], [s]);
      groups', current', lastSeen' := groups, [s], RefOf(refs, s);
      assert groups' + [current'] == [] + [[s]];
    } else if lastSeen != RefOf(refs, s) {
      NewStreak(refs, s, groups, current, seen);
      groups', current', lastSeen' := groups + [current], [s], RefOf(refs, s);
      OrderAtCut(groups, current, seen, s);
    } else {
      ExtendLast(refs, groups, current, s);
      LastIsUniform(refs, groups, current);
      OrderExtended(groups, current, seen, s);
      groups', current', lastSeen' := groups, current + [s], lastSeen;
    }
  }

  lemma {:induction false} NewStreak(refs: seq<seq<nat>>, s: nat, groups: seq<seq<nat>>, current: seq<nat>,
                                     seen: seq<nat>)
    requires Cutting(refs, seen, groups, current) && current != [] && ShaderLe(refs, seen[|seen| - 1], s)
    requires RefOf(refs, current[0]) != RefOf(refs, s)
    ensures Cutting(refs, seen + [s], groups + [current], [s])
  {
    AllOfAppend(groups, current);
    var both := groups + [current];
    assert Uniform(refs, both[|groups|]);
    StreaksAppend(refs, both, [s]);
  }

  /** The loop over sorted shaders that cuts at each change of list. */
  method CutStreaks(refs: seq<seq<nat>>, sorted: seq<nat>) returns (groups: seq<seq<nat>>)
    requires forall i, j :: 0 <= i < j < |sorted| ==> ShaderLe(refs, sorted[i], sorted[j])
    ensures Streaks(refs, groups) && AllOf(groups) == multiset(sorted)
    ensures forall k :: 0 <= k < |groups| ==> Ascend(groups[k])
  {
    groups := [];
    var current: seq<nat>, lastSeen: seq<nat> := [], [];
    for i := 0 to |sorted|
      invariant Cutting(refs, sorted[..i], groups, current)
      invariant current != [] ==> lastSeen == RefOf(refs, current[0])
      invariant InOrder(groups, current, sorted[..i])
    {
      assert sorted[..i + 1] == sorted[..i] + [sorted[i]];
      groups, current, lastSeen := CutStep(refs, sorted[i], groups, current, lastSeen, sorted[..i]);
    }
    assert sorted[..|sorted|] == sorted;
    if current != [] {
      AllOfAppend(groups, current);
      groups := groups + [current];
    }
  }

  lemma {:induction false} LastIsUniform(refs: seq<seq<nat>>, groups: seq<seq<nat>>, current: seq<nat>)
    requires current != [] && Streaks(refs, groups + [current])
    ensures RefOf(refs, current[|current| - 1]) == RefOf(refs, current[0])
  {
    assert Uniform(refs, (groups + [current])[|groups|]);
    assert current[|current| - 1] in current;
  }

  lemma {:induction false} ExtendLast(refs: seq<seq<nat>>, groups: seq<seq<nat>>, current: seq<nat>, s: nat)
    requires current != [] && Streaks(refs, groups + [current]) && RefOf(refs, s) == RefOf(refs, current[0])
    ensures Streaks(refs, groups + [current + [s]])
  {
    var before, after := groups + [current], groups + [current + [s]];
    assert Uniform(refs, before[|groups|]);
    forall k | 0 <= k < |after| ensures Uniform(refs, after[k]) && after[k][0] == before[k][0] {
      assert Uniform(refs, before[k]);
    }
  }

  function Numbers(n: nat): seq<nat> {
    seq(n, i => i)
  }

  /** Every shader is in exactly one group, and two shaders share a group exactly when the same maps reference them. */
  ghost predicate GroupedExactly(lib: Library, groups: seq<seq<nat>>)
    requires lib.Valid()
  {
    && AllOf(groups) == multiset(Numbers(|lib.entries|))
    && (forall k :: 0 <= k < |groups| ==> groups[k] != [])
    && forall k, l, s, t :: 0 <= k < |groups| && 0 <= l < |groups| && s in groups[k] && t in groups[l] ==>
         (k == l <==> References(lib, s) == References(lib, t))
  }

  /** Fewer maps come first; among as many the list with the lower map where they first differ. */
  ghost predicate FewerMaps(a: seq<nat>, b: seq<nat>) {
    |a| < |b| || (|a| == |b| && exists m :: 0 <= m < |a| && a[..m] == b[..m] && a[m] < b[m])
  }

  lemma {:induction false} LessIsFewer(a: seq<nat>, b: seq<nat>)
    requires ListLt(a, b)
    ensures FewerMaps(a, b)
  {
    if |a| == |b| {
      if a[0] < b[0] {
        assert a[..0] == b[..0];
      } else {
        assert a == [a[0]] + a[1..] && b == [b[0]] + b[1..];
        LessIsFewer(a[1..], b[1..]);
        var m :| 0 <= m < |a[1..]| && a[1..][..m] == b[1..][..m] && a[1..][m] < b[1..][m];
        assert a[..m + 1] == [a[0]] + a[1..][..m] && b[..m + 1] == [b[0]] + b[1..][..m];
      }
    }
  }

  /** Groups come by the maps that reference them, and shaders of a group by their index. */
  ghost predicate InMapOrder(lib: Library, groups: seq<seq<nat>>)
    requires lib.Valid()
  {
    && (forall k, l, s, t :: 0 <= k < l < |groups| && s in groups[k] && t in groups[l] ==>
          FewerMaps(References(lib, s), References(lib, t)))
    && (forall k :: 0 <= k < |groups| ==> Ascend(groups[k]))
  }

  method GroupByMaps(lib: Library) returns (groups: seq<seq<nat>>)
    requires lib.Valid()
    ensures GroupedExactly(lib, groups) && InMapOrder(lib, groups)
  {
    var refs := ReferencingMaps(lib);
    var le := (a: nat, b: nat) => ShaderLe(refs, a, b);
    ShaderOrder(refs, le);
    var sorted := SortBy(Numbers(|lib.entries|), le);
    groups := CutStreaks(refs, sorted);
    StreaksAreExact(lib, refs, groups);
    StreaksInMapOrder(lib, refs, groups);
  }

  lemma {:induction false} StreaksAreExact(lib: Library, refs: seq<seq<nat>>, groups: seq<seq<nat>>)
    requires lib.Valid() && |refs| == |lib.entries| && forall s :: 0 <= s < |refs| ==> refs[s] == References(lib, s)
    requires Streaks(refs, groups) && AllOf(groups) == multiset(Numbers(|lib.entries|))
    ensures GroupedExactly(lib, groups)
  {
    forall k, l, s, t | 0 <= k < |groups| && 0 <= l < |groups| && s in groups[k] && t in groups[l]
      ensures k == l <==> References(lib, s) == References(lib, t)
    {
      MemberInRange(groups, k, s, |lib.entries|);
      MemberInRange(groups, l, t, |lib.entries|);
      assert Uniform(refs, groups[k]) && Uniform(refs, groups[l]);
      assert RefOf(refs, s) == RefOf(refs, groups[k][0]) && RefOf(refs, t) == RefOf(refs, groups[l][0]);
    }
  }

  lemma {:induction false} StreaksInMapOrder(lib: Library, refs: seq<seq<nat>>, groups: seq<seq<nat>>)
    requires lib.Valid() && |refs| == |lib.entries| && forall s :: 0 <= s < |refs| ==> refs[s] == References(lib, s)
    requires Streaks(refs, groups) && AllOf(groups) == multiset(Numbers(|lib.entries|))
    requires forall k :: 0 <= k < |groups| ==> Ascend(groups[k])
    ensures InMapOrder(lib, groups)
  {
    forall k, l, s, t | 0 <= k < l < |groups| && s in groups[k] && t in groups[l]
      ensures FewerMaps(References(lib, s), References(lib, t))
    {
      MemberInRange(groups, k, s, |lib.entries|);
      MemberInRange(groups, l, t, |lib.entries|);
      assert Uniform(refs, groups[k]) && Uniform(refs, groups[l]);
      LessIsFewer(RefOf(refs, groups[k][0]), RefOf(refs, groups[l][0]));
    }
  }

  lemma {:induction false} MemberOfAll(groups: seq<seq<nat>>, k: nat, s: nat)
    requires k < |groups| && s in groups[k]
    ensures s in AllOf(groups)
  {
    var last := |groups| - 1;
    if k < last {
      MemberOfAll(groups[..last], k, s);
    } else {
      assert s in multiset(groups[last]);
    }
  }

  lemma {:induction false} MemberInRange(groups: seq<seq<nat>>, k: nat, s: nat, n: nat)
    requires AllOf(groups) == multiset(Numbers(n)) && k < |groups| && s in groups[k]
    ensures s < n
  {
    MemberOfAll(groups, k, s);
    assert s in Numbers(n);
  }
}
