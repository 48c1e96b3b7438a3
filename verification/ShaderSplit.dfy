/** Splitting shader groups: raytracing shaders apart, and large groups by packing greedily. */
module ShaderSplit {
  import opened Sorting
  import opened ShaderGroups
  import opened ShaderPartition

  // ---- Loads ----

  ghost function Load(lib: Library, g: seq<nat>): nat {
    if g == [] then 0 else Load(lib, g[..|g| - 1]) + lib.Size(g[|g| - 1])
  }

  lemma {:induction false} LoadAppend(lib: Library, g: seq<nat>, s: nat)
    ensures Load(lib, g + [s]) == Load(lib, g) + lib.Size(s)
  {
    assert (g + [s])[..|g|] == g;
  }

  lemma {:induction false} LoadConcat(lib: Library, g: seq<nat>, h: seq<nat>)
    ensures Load(lib, g + h) == Load(lib, g) + Load(lib, h)
  {
    if h == [] {
      assert g + h == g;
    } else {
      LoadConcat(lib, g, h[..|h| - 1]);
      assert g + h == g + h[..|h| - 1] + [h[|h| - 1]];
      LoadAppend(lib, g + h[..|h| - 1], h[|h| - 1]);
    }
  }

  lemma {:induction false} LoadWithout(lib: Library, h: seq<nat>, k: nat)
    requires k < |h|
    ensures Load(lib, h) == Load(lib, h[..k] + h[k + 1..]) + lib.Size(h[k])
  {
    assert h == h[..k] + [h[k]] + h[k + 1..];
    LoadConcat(lib, h[..k], h[k + 1..]);
    LoadConcat(lib, h[..k] + [h[k]], h[k + 1..]);
    LoadAppend(lib, h[..k], h[k]);
  }

  lemma {:induction false} RemoveAt(h: seq<nat>, k: nat)
    requires k < |h|
    ensures multiset(h[..k] + h[k + 1..]) == multiset(h) - multiset{h[k]}
  {
    assert h == h[..k] + [h[k]] + h[k + 1..];
  }

  lemma {:induction false} SameWithout(g: seq<nat>, h: seq<nat>, k: nat)
    requires multiset(g) == multiset(h) && g != [] && k < |h| && h[k] == g[|g| - 1]
    ensures multiset(g[..|g| - 1]) == multiset(h[..k] + h[k + 1..])
  {
    RemoveAt(g, |g| - 1);
    RemoveAt(h, k);
    assert g[..|g| - 1] + g[|g|..] == g[..|g| - 1];
  }

  /** The load does not depend on the order. */
  lemma {:induction false} LoadOfSame(lib: Library, g: seq<nat>, h: seq<nat>)
    requires multiset(g) == multiset(h)
    ensures Load(lib, g) == Load(lib, h)
    decreases |g|
  {
    SameLength(g, h);
    if g != [] {
      SameMembers(g, h, g[|g| - 1]);
      var k :| 0 <= k < |h| && h[k] == g[|g| - 1];
      SameWithout(g, h, k);
      LoadOfSame(lib, g[..|g| - 1], h[..k] + h[k + 1..]);
      LoadWithout(lib, h, k);
    }
  }

  lemma {:induction false} LoadOfMember(lib: Library, g: seq<nat>, s: nat)
    requires s in g
    ensures lib.Size(s) <= Load(lib, g)
  {
    if s != g[|g| - 1] {
      assert s in g[..|g| - 1];
      LoadOfMember(lib, g[..|g| - 1], s);
    }
  }

  // ---- What a split keeps ----

  /** Every group of the split comes out of one group, without loss. */
  ghost predicate Refines(parts: seq<seq<nat>>, groups: seq<seq<nat>>) {
    && AllOf(parts) == AllOf(groups)
    && (forall p :: p in parts ==> WithinOne(p, groups))
  }

  ghost predicate NoEmptyGroup(groups: seq<seq<nat>>) {
    forall g :: g in groups ==> g != []
  }

  ghost predicate WithinOne(p: seq<nat>, groups: seq<seq<nat>>) {
    exists g :: g in groups && forall s :: s in p ==> s in g
  }

  /** Splitting group by group. */
  lemma {:induction false} RefinesAppend(parts: seq<seq<nat>>, groups: seq<seq<nat>>, more: seq<seq<nat>>, g: seq<nat>)
    requires Refines(parts, groups) && AllOf(more) == multiset(g) && forall p ::
      p in more ==> forall s :: s in p ==> s in g
    ensures Refines(parts + more, groups + [g])
  {
    AllOfConcat(parts, more);
    AllOfAppend(groups, g);
    forall p | p in parts + more ensures WithinOne(p, groups + [g]) {
      if p in parts {
        var h :| h in groups && forall s :: s in p ==> s in h;
        assert h in groups + [g];
      } else {
        assert g in groups + [g];
      }
    }
  }

  lemma {:induction false} RefinesTransitive(parts: seq<seq<nat>>, middle: seq<seq<nat>>, groups: seq<seq<nat>>)
    requires Refines(parts, middle) && Refines(middle, groups)
    ensures Refines(parts, groups)
  {
    forall p | p in parts ensures WithinOne(p, groups) {
      var m :| m in middle && forall s :: s in p ==> s in m;
      var g :| g in groups && forall s :: s in m ==> s in g;
      assert forall s :: s in p ==> s in g;
    }
  }

  // ---- Raytracing shaders ----

  /** `is_raytracing_shader_frequency`. */
  predicate IsRaytracing(frequency: nat) {
    6 <= frequency <= 9
  }

  /** Whether the shader is a raytracing one. */
  function Raytracing(lib: Library, s: nat): bool {
    s < |lib.entries| && IsRaytracing(lib.entries[s].frequency)
  }

  /** The shaders of a group that are not raytracing shaders, and those that are. */
  method Separate(lib: Library, x: seq<nat>) returns (plain: seq<nat>, raytracing: seq<nat>)
    ensures multiset(plain) + multiset(raytracing) == multiset(x)
    ensures forall s :: s in plain ==> s in x && !Raytracing(lib, s)
    ensures forall s :: s in raytracing ==> s in x && Raytracing(lib, s)
  {
    plain, raytracing := [], [];
    for i := 0 to |x|
      invariant multiset(plain) + multiset(raytracing) == multiset(x[..i])
      invariant forall s :: s in plain ==> s in x && !Raytracing(lib, s)
      invariant forall s :: s in raytracing ==> s in x && Raytracing(lib, s)
    {
      assert x[..i + 1] == x[..i] + [x[i]];
      if Raytracing(lib, x[i]) {
        raytracing := raytracing + [x[i]];
      } else {
        plain := plain + [x[i]];
      }
    }
    assert x[..|x|] == x;
  }

  /** Shaders of one kind. */
  ghost predicate OneKind(lib: Library, x: seq<nat>) {
    forall s, t :: s in x && t in x ==> Raytracing(lib, s) == Raytracing(lib, t)
  }

  lemma {:induction false} AllOfOne(x: seq<nat>)
    ensures AllOf([x]) == multiset(x)
  {
    AllOfAppend([], x);
    assert [] + [x] == [x];
  }

  lemma {:induction false} AllOfTwo(x: seq<nat>, y: seq<nat>)
    ensures AllOf([x, y]) == multiset(x) + multiset(y)
  {
    AllOfOne(x);
    AllOfAppend([x], y);
    assert [x] + [y] == [x, y];
  }

  /** The two kinds of shaders of a group, or the group itself if it has only one kind. */
  method SeparateOne(lib: Library, x: seq<nat>) returns (parts: seq<seq<nat>>)
    requires x != []
    ensures AllOf(parts) == multiset(x) && NoEmptyGroup(parts) && forall p ::
      p in parts ==> forall s :: s in p ==> s in x
    ensures forall p :: p in parts ==> OneKind(lib, p)
    ensures OneKind(lib, x) ==> parts == [x]
    ensures forall s, t :: s in x && t in x && Raytracing(lib, s) == Raytracing(lib, t) ==> Together(parts, s, t)
  {
    var plain, raytracing := Separate(lib, x);
    if plain != [] && raytracing != [] {
      parts := [plain, raytracing];
      AllOfTwo(plain, raytracing);
      assert plain[0] in plain && raytracing[0] in raytracing;
      KindsStayTogether(lib, x, plain, raytracing);
    } else {
      parts := [x];
      AllOfOne(x);
      SameMembersOfPart(plain, raytracing, x);
      assert x in parts;
    }
  }

  ghost predicate Together(parts: seq<seq<nat>>, s: nat, t: nat) {
    exists p :: p in parts && s in p && t in p
  }

  lemma {:induction false} KindsStayTogether(lib: Library, x: seq<nat>, plain: seq<nat>, raytracing: seq<nat>)
    requires multiset(plain) + multiset(raytracing) == multiset(x)
    requires (forall s :: s in plain ==> !Raytracing(lib, s)) && (forall s :: s in raytracing ==> Raytracing(lib, s))
    ensures forall s, t ::
      s in x && t in x && Raytracing(lib, s) == Raytracing(lib, t) ==> Together([plain, raytracing], s, t)
  {
    forall s, t | s in x && t in x && Raytracing(lib, s) == Raytracing(lib, t)
      ensures Together([plain, raytracing], s, t) {
      assert s in multiset(x) && t in multiset(x);
      var p := if Raytracing(lib, s) then raytracing else plain;
      assert p in [plain, raytracing] && s in p && t in p;
    }
  }

  lemma {:induction false} SameMembersOfPart(plain: seq<nat>, raytracing: seq<nat>, x: seq<nat>)
    requires multiset(plain) + multiset(raytracing) == multiset(x) && (plain == [] || raytracing == [])
    ensures forall s :: s in x ==> s in (if plain == [] then raytracing else plain)
  {
    forall s | s in x ensures s in (if plain == [] then raytracing else plain) {
      assert s in multiset(x);
    }
  }

  /** Shaders of one kind that shared a group still do. */
  ghost predicate KindsTogether(lib: Library, parts: seq<seq<nat>>, groups: seq<seq<nat>>) {
    forall g, s, t ::
      g in groups && s in g && t in g && Raytracing(lib, s) == Raytracing(lib, t) ==> Together(parts, s, t)
  }

  lemma {:induction false} KindsTogetherAppend(lib: Library, parts: seq<seq<nat>>, groups: seq<seq<nat>>,
                                               more: seq<seq<nat>>, x: seq<nat>)
    requires KindsTogether(lib, parts, groups)
    requires forall s, t :: s in x && t in x && Raytracing(lib, s) == Raytracing(lib, t) ==> Together(more, s, t)
    ensures KindsTogether(lib, parts + more, groups + [x])
  {
    forall g, s, t | g in groups + [x] && s in g && t in g && Raytracing(lib, s) == Raytracing(lib, t)
      ensures Together(parts + more, s, t) {
      if g in groups {
        assert Together(parts, s, t);
        var p :| p in parts && s in p && t in p;
        assert p in parts + more;
      } else {
        assert Together(more, s, t);
        var p :| p in more && s in p && t in p;
        assert p in parts + more;
      }
    }
  }

  /** Done for every group when the format asks for it. */
  method SeparateRaytracing(lib: Library, groups: seq<seq<nat>>) returns (parts: seq<seq<nat>>)
    requires NoEmptyGroup(groups)
    ensures Refines(parts, groups) && NoEmptyGroup(parts) && KindsTogether(lib, parts, groups)
    ensures forall p :: p in parts ==> OneKind(lib, p)
  {
    parts := [];
    for k := 0 to |groups|
      invariant Refines(parts, groups[..k]) && NoEmptyGroup(parts) && KindsTogether(lib, parts, groups[..k])
      invariant forall p :: p in parts ==> OneKind(lib, p)
    {
      assert groups[..k + 1] == groups[..k] + [groups[k]];
      assert groups[k] in groups;
      var more := SeparateOne(lib, groups[k]);
      RefinesAppend(parts, groups[..k], more, groups[k]);
      KindsTogetherAppend(lib, parts, groups[..k], more, groups[k]);
      parts := parts + more;
    }
    assert groups[..|groups|] == groups;
  }

  // ---- Groups before they are split by size ----

  /** Frequencies of raytracing shaders: RayGen, RayMiss, RayHitGroup and RayCallable. */
  const RAYTRACING_FREQUENCIES: set<nat> := {6, 7, 8, 9}

  /** Both shaders have a raytracing frequency, or neither has. */
  ghost predicate SameKind(lib: Library, s: nat, t: nat) {
    (s < |lib.entries| && lib.entries[s].frequency in RAYTRACING_FREQUENCIES)
    == (t < |lib.entries| && lib.entries[t].frequency in RAYTRACING_FREQUENCIES)
  }

  /** The same maps reference both shaders and, if kinds are separated, the shaders are of one kind. */
  ghost predicate SameClass(lib: Library, separate: bool, s: nat, t: nat)
    requires lib.Valid()
  {
    References(lib, s) == References(lib, t) && (separate ==> SameKind(lib, s, t))
  }

  /** Every shader is in one group, which it shares exactly with the shaders of its class. */
  ghost predicate Classes(lib: Library, separate: bool, groups: seq<seq<nat>>)
    requires lib.Valid()
  {
    && AllOf(groups) == multiset(Numbers(|lib.entries|)) && NoEmptyGroup(groups)
    && forall k, l, s, t :: 0 <= k < |groups| && 0 <= l < |groups| && s in groups[k] && t in groups[l] ==>
         (k == l <==> SameClass(lib, separate, s, t))
  }

  lemma {:induction false} PartHasGroup(parts: seq<seq<nat>>, groups: seq<seq<nat>>, p: seq<nat>) returns (k: nat)
    requires Refines(parts, groups) && p in parts
    ensures k < |groups| && forall s :: s in p ==> s in groups[k]
  {
    var g :| g in groups && forall s :: s in p ==> s in g;
    k :| 0 <= k < |groups| && groups[k] == g;
  }

  lemma {:induction false} SeparatedPlace(lib: Library, parts: seq<seq<nat>>, groups: seq<seq<nat>>, k: nat, l: nat,
                                          s: nat, t: nat)
    requires lib.Valid() && GroupedExactly(lib, groups) && Refines(parts, groups) && KindsTogether(lib, parts, groups)
    requires forall p :: p in parts ==> OneKind(lib, p)
    requires k < |parts| && l < |parts| && s in parts[k] && t in parts[l]
    ensures k == l <==> SameClass(lib, true, s, t)
  {
    assert parts[k] in parts && parts[l] in parts;
    var i := PartHasGroup(parts, groups, parts[k]);
    var j := PartHasGroup(parts, groups, parts[l]);
    if SameClass(lib, true, s, t) {
      assert i == j && groups[i] in groups;
      assert Together(parts, s, t);
      var p :| p in parts && s in p && t in p;
      var m :| 0 <= m < |parts| && parts[m] == p;
      OneGroup(parts, |lib.entries|, k, m, s);
      OneGroup(parts, |lib.entries|, l, m, t);
    }
  }

  /** Exact grouping by maps stays exact when kinds are separated. */
  lemma {:induction false} SeparatedClasses(lib: Library, parts: seq<seq<nat>>, groups: seq<seq<nat>>)
    requires lib.Valid() && GroupedExactly(lib, groups) && Refines(parts, groups) && KindsTogether(lib, parts, groups)
    requires NoEmptyGroup(parts) && forall p :: p in parts ==> OneKind(lib, p)
    ensures Classes(lib, true, parts)
  {
    forall k, l, s, t | 0 <= k < |parts| && 0 <= l < |parts| && s in parts[k] && t in parts[l]
      ensures k == l <==> SameClass(lib, true, s, t)
    {
      SeparatedPlace(lib, parts, groups, k, l, s, t);
    }
  }

  lemma {:induction false} GroupedClasses(lib: Library, groups: seq<seq<nat>>)
    requires lib.Valid() && GroupedExactly(lib, groups)
    ensures Classes(lib, false, groups)
  {
    forall g | g in groups ensures g != [] {
      var k :| 0 <= k < |groups| && groups[k] == g;
    }
  }
}
