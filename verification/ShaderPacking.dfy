/** Packing the shaders of a large group into smaller groups: always into the one with the least load so far. */
module ShaderPacking {
  import opened Sorting
  import opened ShaderGroups
  import opened ShaderSplit

  /** New groups and the size of each so far. */
  datatype Packing = Packing(groups: seq<seq<nat>>, loads: seq<nat>)

  function EmptyPacking(n: nat): Packing {
    Packing(seq(n, _ => []), seq(n, _ => 0))
  }

  /** The first group of least load. */
  function Least(loads: seq<nat>, n: nat): (k: nat)
    requires 0 < n <= |loads|
    ensures k < n && (forall j :: 0 <= j < n ==> loads[k] <= loads[j]) &&
            (forall j :: 0 <= j < k ==> loads[k] < loads[j])
  {
    if n == 1 then 0
    else
      var k := Least(loads, n - 1);
      if loads[n - 1] < loads[k] then n - 1 else k
  }

  function Put(p: Packing, k: nat, s: nat, size: nat): Packing
    requires k < |p.groups| == |p.loads|
  {
    Packing(p.groups[k := p.groups[k] + [s]], p.loads[k := p.loads[k] + size])
  }

  /** One shader more, in the first least loaded group. */
  function Next(lib: Library, p: Packing, n: nat, s: nat): (p': Packing)
    requires 0 < n == |p.groups| == |p.loads|
    ensures |p'.groups| == |p'.loads| == n
  {
    Put(p, Least(p.loads, n), s, lib.Size(s))
  }

  /** The packing of the first `i` shaders. */
  function Pack(lib: Library, order: seq<nat>, n: nat, i: nat): (p: Packing)
    requires n > 0 && i <= |order|
    ensures |p.groups| == |p.loads| == n
  {
    if i == 0 then EmptyPacking(n) else Next(lib, Pack(lib, order, n, i - 1), n, order[i - 1])
  }

  /** The inner loop: where the next shader goes. */
  method SmallestLoad(loads: seq<nat>, n: nat) returns (smallest: nat)
    requires 0 < n <= |loads|
    ensures smallest == Least(loads, n)
  {
    smallest := 0;
    for j := 1 to n
      invariant smallest == Least(loads, j)
    {
      if loads[j] < loads[smallest] {
        smallest := j;
      }
    }
  }

  method PackGreedily(lib: Library, order: seq<nat>, n: nat) returns (groups: seq<seq<nat>>)
    requires n > 0
    ensures groups == Pack(lib, order, n, |order|).groups
  {
    groups := seq(n, _ => []);
    var loads: seq<nat> := seq(n, _ => 0);
    for i := 0 to |order|
      invariant Packing(groups, loads) == Pack(lib, order, n, i)
    {
      ghost var before := Packing(groups, loads);
      var smallest := SmallestLoad(loads, n);
      groups := groups[smallest := groups[smallest] + [order[i]]];
      loads := loads[smallest := loads[smallest] + lib.Size(order[i])];
      assert Packing(groups, loads) == Put(before, smallest, order[i], lib.Size(order[i]));
    }
  }

  // ---- Sums over the groups ----

  ghost function Sum(loads: seq<nat>): nat {
    if loads == [] then 0 else Sum(loads[..|loads| - 1]) + loads[|loads| - 1]
  }

  lemma {:induction false} SumUpdate(loads: seq<nat>, k: nat, v: nat)
    requires k < |loads|
    ensures Sum(loads[k := v]) == Sum(loads) - loads[k] + v
  {
    var front, last := loads[..|loads| - 1], |loads| - 1;
    if k < last {
      SumUpdate(front, k, v);
      assert loads[k := v][..last] == front[k := v];
    } else {
      assert loads[k := v][..last] == front;
    }
  }

  lemma {:induction false} SumAtLeast(loads: seq<nat>, v: nat)
    requires forall j :: 0 <= j < |loads| ==> v <= loads[j]
    ensures v * |loads| <= Sum(loads)
  {
    if loads != [] {
      SumAtLeast(loads[..|loads| - 1], v);
      assert v * |loads| == v * (|loads| - 1) + v;
    }
  }

  lemma {:induction false} SumZeros(n: nat)
    ensures Sum(seq(n, _ => 0)) == 0
  {
    if n > 0 {
      SumZeros(n - 1);
      assert seq(n, _ => 0)[..n - 1] == seq(n - 1, _ => 0);
    }
  }

  lemma {:induction false} AllOfUpdate(groups: seq<seq<nat>>, k: nat, s: nat)
    requires k < |groups|
    ensures AllOf(groups[k := groups[k] + [s]]) == AllOf(groups) + multiset{s}
  {
    var front, last := groups[..|groups| - 1], |groups| - 1;
    var groups' := groups[k := groups[k] + [s]];
    if k < last {
      AllOfUpdate(front, k, s);
      assert groups'[..last] == front[k := front[k] + [s]];
    } else {
      assert groups'[..last] == front;
    }
  }

  lemma {:induction false} AllOfEmpty(n: nat)
    requires n > 0
    ensures AllOf(EmptyPacking(n).groups) == multiset{}
  {
    var groups := EmptyPacking(n).groups;
    if n > 1 {
      AllOfEmpty(n - 1);
      assert groups[..n - 1] == EmptyPacking(n - 1).groups;
    }
  }

  // ---- What a packing keeps ----

  lemma {:induction false} PackLoad(lib: Library, order: seq<nat>, n: nat, i: nat, k: nat)
    requires n > 0 && i <= |order| && k < n
    ensures Pack(lib, order, n, i).loads[k] == Load(lib, Pack(lib, order, n, i).groups[k])
  {
    if i > 0 {
      PackLoad(lib, order, n, i - 1, k);
      LoadAppend(lib, Pack(lib, order, n, i - 1).groups[k], order[i - 1]);
    }
  }

  ghost function Taken(order: seq<nat>, i: nat): multiset<nat>
    requires i <= |order|
  {
    if i == 0 then multiset{} else Taken(order, i - 1) + multiset{order[i - 1]}
  }

  lemma {:induction false} TakenIsPrefix(order: seq<nat>, i: nat)
    requires i <= |order|
    ensures Taken(order, i) == multiset(order[..i])
  {
    if i > 0 {
      TakenIsPrefix(order, i - 1);
      assert order[..i] == order[..i - 1] + [order[i - 1]];
    }
  }

  lemma {:induction false} PackTakes(lib: Library, order: seq<nat>, n: nat, i: nat)
    requires n > 0 && i <= |order|
    ensures AllOf(Pack(lib, order, n, i).groups) == Taken(order, i)
  {
    if i == 0 {
      AllOfEmpty(n);
    } else {
      PackTakes(lib, order, n, i - 1);
      NextTakes(lib, Pack(lib, order, n, i - 1), n, order[i - 1]);
    }
  }

  lemma {:induction false} NextTakes(lib: Library, p: Packing, n: nat, s: nat)
    requires 0 < n == |p.groups| == |p.loads|
    ensures AllOf(Next(lib, p, n, s).groups) == AllOf(p.groups) + multiset{s}
  {
    AllOfUpdate(p.groups, Least(p.loads, n), s);
  }

  lemma {:induction false} PackHolds(lib: Library, order: seq<nat>, n: nat, i: nat)
    requires n > 0 && i <= |order|
    ensures AllOf(Pack(lib, order, n, i).groups) == multiset(order[..i])
  {
    PackTakes(lib, order, n, i);
    TakenIsPrefix(order, i);
  }

  lemma {:induction false} PutSum(p: Packing, k: nat, s: nat, size: nat)
    requires k < |p.groups| == |p.loads|
    ensures Sum(Put(p, k, s, size).loads) == Sum(p.loads) + size
  {
    SumUpdate(p.loads, k, p.loads[k] + size);
  }

  /** The size of the first `i` shaders. */
  ghost function Packed(lib: Library, order: seq<nat>, i: nat): nat
    requires i <= |order|
  {
    if i == 0 then 0 else Packed(lib, order, i - 1) + lib.Size(order[i - 1])
  }

  lemma {:induction false} PackedIsLoad(lib: Library, order: seq<nat>, i: nat)
    requires i <= |order|
    ensures Packed(lib, order, i) == Load(lib, order[..i])
  {
    if i > 0 {
      PackedIsLoad(lib, order, i - 1);
      LoadAppend(lib, order[..i - 1], order[i - 1]);
      assert order[..i] == order[..i - 1] + [order[i - 1]];
    }
  }

  lemma {:induction false} PackSum(lib: Library, order: seq<nat>, n: nat, i: nat)
    requires n > 0 && i <= |order|
    ensures Sum(Pack(lib, order, n, i).loads) == Packed(lib, order, i)
  {
    if i == 0 {
      SumZeros(n);
    } else {
      PackSum(lib, order, n, i - 1);
      var p := Pack(lib, order, n, i - 1);
      PutSum(p, Least(p.loads, n), order[i - 1], lib.Size(order[i - 1]));
    }
  }

  /** The order is by size, largest first. */
  ghost predicate Descending(lib: Library, order: seq<nat>) {
    forall i, j :: 0 <= i < j < |order| ==> lib.Size(order[j]) <= lib.Size(order[i])
  }

  /**
   * In each group the last shader is the smallest, and what came before it is at most its share of what had been
   * packed.
   */
  ghost predicate Fair(lib: Library, g: seq<nat>, load: nat, n: nat, packed: nat) {
    g != [] ==>
      var last := lib.Size(g[|g| - 1]);
      && (forall s :: s in g ==> last <= lib.Size(s))
      && last <= load && (load - last) * n + last <= packed
  }

  lemma {:induction false} FairPut(lib: Library, g: seq<nat>, load: nat, n: nat, packed: nat, s: nat)
    requires n > 0 && load * n <= packed && forall t :: t in g ==> lib.Size(s) <= lib.Size(t)
    ensures Fair(lib, g + [s], load + lib.Size(s), n, packed + lib.Size(s))
  {
  }

  lemma {:induction false} FairStays(lib: Library, g: seq<nat>, load: nat, n: nat, packed: nat, more: nat)
    requires Fair(lib, g, load, n, packed)
    ensures Fair(lib, g, load, n, packed + more)
  {
  }

  lemma {:induction false} NextFair(lib: Library, p: Packing, n: nat, packed: nat, s: nat, k: nat)
    requires |p.groups| == |p.loads| == n && k < n && Fair(lib, p.groups[k], p.loads[k], n, packed)
    requires var l := Least(p.loads, n); p.loads[l] * n <= packed && forall t ::
      t in p.groups[l] ==> lib.Size(s) <= lib.Size(t)
    ensures Fair(lib, Next(lib, p, n, s).groups[k], Next(lib, p, n, s).loads[k], n, packed + lib.Size(s))
  {
    if k == Least(p.loads, n) {
      FairPut(lib, p.groups[k], p.loads[k], n, packed, s);
    } else {
      FairStays(lib, p.groups[k], p.loads[k], n, packed, lib.Size(s));
    }
  }

  /** The least load is at most the average. */
  lemma {:induction false} LeastIsShare(lib: Library, order: seq<nat>, n: nat, i: nat)
    requires n > 0 && i <= |order|
    ensures var p := Pack(lib, order, n, i); p.loads[Least(p.loads, n)] * n <= Packed(lib, order, i)
  {
    var p := Pack(lib, order, n, i);
    PackSum(lib, order, n, i);
    SumAtLeast(p.loads, p.loads[Least(p.loads, n)]);
  }

  lemma {:induction false} PackFair(lib: Library, order: seq<nat>, n: nat, i: nat, k: nat)
    requires n > 0 && i <= |order| && k < n && Descending(lib, order)
    ensures Fair(lib, Pack(lib, order, n, i).groups[k], Pack(lib, order, n, i).loads[k], n, Packed(lib, order, i))
  {
    if i > 0 {
      var p := Pack(lib, order, n, i - 1);
      PackFair(lib, order, n, i - 1, k);
      LeastIsShare(lib, order, n, i - 1);
      SmallestSoFar(lib, order, n, i, Least(p.loads, n));
      NextFair(lib, p, n, Packed(lib, order, i - 1), order[i - 1], k);
    }
  }

  lemma {:induction false} SmallestSoFar(lib: Library, order: seq<nat>, n: nat, i: nat, k: nat)
    requires n > 0 && 0 < i <= |order| && k < n && Descending(lib, order)
    ensures forall s :: s in Pack(lib, order, n, i - 1).groups[k] ==> lib.Size(order[i - 1]) <= lib.Size(s)
  {
    PackHolds(lib, order, n, i - 1);
    forall s | s in Pack(lib, order, n, i - 1).groups[k] ensures lib.Size(order[i - 1]) <= lib.Size(s) {
      MemberOfAll(Pack(lib, order, n, i - 1).groups, k, s);
      assert s in order[..i - 1];
    }
  }

  ghost function Lengths(groups: seq<seq<nat>>): seq<nat> {
    seq(|groups|, k requires 0 <= k < |groups| => |groups[k]|)
  }

  /** No group gets a second shader before every group has one. */
  ghost predicate Spread(groups: seq<seq<nat>>, i: nat) {
    && Sum(Lengths(groups)) == i
    && (i <= |groups| ==> forall k :: 0 <= k < |groups| ==> |groups[k]| <= 1)
    && (i >= |groups| ==> forall k :: 0 <= k < |groups| ==> |groups[k]| >= 1)
  }

  lemma {:induction false} SumAtMost(loads: seq<nat>, v: nat)
    requires forall j :: 0 <= j < |loads| ==> loads[j] <= v
    ensures Sum(loads) <= v * |loads|
  {
    if loads != [] {
      SumAtMost(loads[..|loads| - 1], v);
      assert v * |loads| == v * (|loads| - 1) + v;
    }
  }

  lemma {:induction false} LengthsPut(groups: seq<seq<nat>>, k: nat, s: nat)
    requires k < |groups|
    ensures Sum(Lengths(groups[k := groups[k] + [s]])) == Sum(Lengths(groups)) + 1
  {
    assert Lengths(groups[k := groups[k] + [s]]) == Lengths(groups)[k := |groups[k]| + 1];
    SumUpdate(Lengths(groups), k, |groups[k]| + 1);
  }

  /** With less than one shader per group some group is empty. */
  lemma {:induction false} SomeEmpty(groups: seq<seq<nat>>)
    requires Sum(Lengths(groups)) < |groups|
    ensures exists k :: 0 <= k < |groups| && groups[k] == []
  {
    if forall k :: 0 <= k < |groups| ==> |groups[k]| >= 1 {
      SumAtLeast(Lengths(groups), 1);
    }
  }

  /** With one shader per group and none twice, none is empty. */
  lemma {:induction false} NoneEmpty(groups: seq<seq<nat>>)
    requires Sum(Lengths(groups)) == |groups| && forall k :: 0 <= k < |groups| ==> |groups[k]| <= 1
    ensures forall k :: 0 <= k < |groups| ==> |groups[k]| >= 1
  {
    forall k | 0 <= k < |groups| ensures |groups[k]| >= 1 {
      if groups[k] == [] {
        SumUpdate(Lengths(groups), k, 1);
        SumAtMost(Lengths(groups)[k := 1], 1);
      }
    }
  }

  /** Each of these shaders has code. */
  ghost predicate AllPositive(lib: Library, order: seq<nat>) {
    forall s :: s in order ==> lib.Size(s) > 0
  }

  lemma {:induction false} PositiveLoad(lib: Library, g: seq<nat>)
    requires AllPositive(lib, g)
    ensures Load(lib, g) == 0 <==> g == []
  {
    if g != [] {
      assert g[|g| - 1] in g;
    }
  }

  lemma {:induction false} SpreadPut(groups: seq<seq<nat>>, k: nat, s: nat, i: nat)
    requires Spread(groups, i) && k < |groups| && (i < |groups| ==> groups[k] == [])
    ensures Spread(groups[k := groups[k] + [s]], i + 1)
  {
    LengthsPut(groups, k, s);
    if i + 1 == |groups| {
      NoneEmpty(groups[k := groups[k] + [s]]);
    }
  }

  /** The shaders placed before number `i` have code. */
  ghost predicate PositiveBefore(lib: Library, order: seq<nat>, i: nat) {
    forall j :: 0 <= j < i && j < |order| ==> lib.Size(order[j]) > 0
  }

  /** No group gets a second shader while one is empty, as long as all shaders but the last one placed have code. */
  lemma {:induction false} PackSpreads(lib: Library, order: seq<nat>, n: nat, i: nat)
    requires n > 0 && i <= |order| && (i > 1 ==> PositiveBefore(lib, order, i - 1))
    ensures Spread(Pack(lib, order, n, i).groups, i)
  {
    if i == 0 {
      assert Lengths(EmptyPacking(n).groups) == seq(n, _ => 0);
      SumZeros(n);
    } else {
      PackSpreads(lib, order, n, i - 1);
      NextSpreads(lib, order, n, i - 1);
    }
  }

  lemma {:induction false} NextSpreads(lib: Library, order: seq<nat>, n: nat, i: nat)
    requires n > 0 && i < |order| && PositiveBefore(lib, order, i) && Spread(Pack(lib, order, n, i).groups, i)
    ensures Spread(Pack(lib, order, n, i + 1).groups, i + 1)
  {
    var p := Pack(lib, order, n, i);
    var k := Least(p.loads, n);
    if i < n {
      LeastIsEmpty(lib, order, n, i);
    }
    SpreadPut(p.groups, k, order[i], i);
  }

  /** While groups are empty the least loaded one is. */
  lemma {:induction false} LeastIsEmpty(lib: Library, order: seq<nat>, n: nat, i: nat)
    requires n > 0 && i < n && i <= |order| && PositiveBefore(lib, order, i)
    requires Sum(Lengths(Pack(lib, order, n, i).groups)) == i
    ensures var p := Pack(lib, order, n, i); p.groups[Least(p.loads, n)] == [] && p.loads[Least(p.loads, n)] == 0
  {
    var p := Pack(lib, order, n, i);
    SomeEmpty(p.groups);
    var e :| 0 <= e < n && p.groups[e] == [];
    var k := Least(p.loads, n);
    PackHolds(lib, order, n, i);
    PackLoad(lib, order, n, i, k);
    PackLoad(lib, order, n, i, e);
    forall s | s in p.groups[k] ensures lib.Size(s) > 0 {
      MemberOfAll(p.groups, k, s);
      assert s in order[..i];
    }
    PositiveLoad(lib, p.groups[k]);
  }

  // ---- Which groups stay empty ----

  /** The library in which every shader with code has size one. */
  ghost function Ones(lib: Library): (ones: Library)
    ensures forall s: nat :: ones.Size(s) == if lib.Size(s) > 0 then 1 else 0
  {
    lib.(entries := seq(|lib.entries|, s requires 0 <= s < |lib.entries| =>
      lib.entries[s].(uncompressedSize := if lib.entries[s].uncompressedSize > 0 then 1 else 0)))
  }

  /** Number of shaders with code. */
  ghost function Positives(lib: Library, g: seq<nat>): nat {
    Load(Ones(lib), g)
  }

  /** Largest first puts the shaders with code in front. */
  lemma {:induction false} PositivesFirst(lib: Library, order: seq<nat>)
    requires Descending(lib, order)
    ensures Positives(lib, order) <= |order|
    ensures forall j :: 0 <= j < |order| ==> (lib.Size(order[j]) > 0 <==> j < Positives(lib, order))
  {
    if order != [] {
      var front := order[..|order| - 1];
      PositivesFirst(lib, front);
      assert forall j :: 0 <= j < |front| ==> order[j] == front[j];
      if Positives(lib, front) < |front| {
        assert lib.Size(order[|order| - 1]) <= lib.Size(order[Positives(lib, front)]) == 0;
      }
    }
  }

  lemma {:induction false} NonEmptyStays(lib: Library, order: seq<nat>, n: nat, i: nat, j: nat, k: nat)
    requires n > 0 && i <= j <= |order| && k < n && Pack(lib, order, n, i).groups[k] != []
    ensures Pack(lib, order, n, j).groups[k] != []
    decreases j
  {
    if i < j {
      NonEmptyStays(lib, order, n, i, j - 1, k);
    }
  }

  /** Only group `e` has changed; it has a shader and no load is different. */
  ghost predicate OnlyFilled(before: Packing, after: Packing, e: nat) {
    && after.loads == before.loads && |after.groups| == |before.groups| && e < |after.groups| && after.groups[e] != []
    && forall k :: 0 <= k < |after.groups| && k != e ==> after.groups[k] == before.groups[k]
  }

  lemma {:induction false} NextWithoutCode(lib: Library, before: Packing, p: Packing, n: nat, s: nat)
    requires 0 < n == |p.groups| == |p.loads| && |before.groups| == |before.loads| == n && lib.Size(s) == 0
    requires p == before || OnlyFilled(before, p, Least(before.loads, n))
    ensures OnlyFilled(before, Next(lib, p, n, s), Least(before.loads, n))
  {
    assert p.loads[Least(p.loads, n) := p.loads[Least(p.loads, n)]] == p.loads;
  }

  /** Shaders without code all go to the group that is least loaded when the first of them is placed. */
  lemma {:induction false} ZerosTogether(lib: Library, order: seq<nat>, n: nat, p: nat, i: nat)
    requires n > 0 && p < i <= |order| && forall j :: p <= j < |order| ==> lib.Size(order[j]) == 0
    ensures OnlyFilled(Pack(lib, order, n, p), Pack(lib, order, n, i), Least(Pack(lib, order, n, p).loads, n))
  {
    if p + 1 < i {
      ZerosTogether(lib, order, n, p, i - 1);
    }
    NextWithoutCode(lib, Pack(lib, order, n, p), Pack(lib, order, n, i - 1), n, order[i - 1]);
  }

  /**
   * When shaders are packed largest first into no more groups than there are shaders, every group gets one exactly when
   * all groups but one get a shader with code.
   */
  lemma {:induction false} FilledIffPositives(lib: Library, order: seq<nat>, n: nat)
    requires 0 < n <= |order| && Descending(lib, order)
    ensures NoEmptyGroup(Pack(lib, order, n, |order|).groups) <==> n <= Positives(lib, order) + 1
  {
    var p, groups := Positives(lib, order), Pack(lib, order, n, |order|).groups;
    PositivesFirst(lib, order);
    if p >= n {
      PackSpreads(lib, order, n, n);
      forall k | 0 <= k < n ensures groups[k] != [] {
        NonEmptyStays(lib, order, n, n, |order|, k);
      }
    } else {
      SettledBy(lib, order, n, p);
      var settled := Pack(lib, order, n, p + 1).groups;
      PackSpreads(lib, order, n, p + 1);
      if n > p + 1 {
        SomeEmpty(settled);
        var k :| 0 <= k < n && settled[k] == [];
        assert groups[k] == [] && groups[k] in groups;
      }
    }
  }

  /** After the first shader without code no empty group is filled. */
  lemma {:induction false} SettledBy(lib: Library, order: seq<nat>, n: nat, p: nat)
    requires n > 0 && p < |order| && forall j :: p <= j < |order| ==> lib.Size(order[j]) == 0
    ensures forall k ::
      0 <= k < n ==> (Pack(lib, order, n, |order|).groups[k] == [] <==> Pack(lib, order, n, p + 1).groups[k] == [])
  {
    ZerosTogether(lib, order, n, p, p + 1);
    ZerosTogether(lib, order, n, p, |order|);
  }

  // ---- When the limit holds ----

  lemma {:induction false} PackCount(lib: Library, order: seq<nat>, n: nat, i: nat)
    requires n > 0 && i <= |order|
    ensures Sum(Lengths(Pack(lib, order, n, i).groups)) == i
  {
    if i == 0 {
      assert Lengths(EmptyPacking(n).groups) == seq(n, _ => 0);
      SumZeros(n);
    } else {
      var p := Pack(lib, order, n, i - 1);
      PackCount(lib, order, n, i - 1);
      LengthsPut(p.groups, Least(p.loads, n), order[i - 1]);
    }
  }

  /** While there are fewer shaders than groups the least load is zero. */
  lemma {:induction false} LeastIsZero(lib: Library, order: seq<nat>, n: nat, i: nat)
    requires n > 0 && i < n && i <= |order|
    ensures var p := Pack(lib, order, n, i); p.loads[Least(p.loads, n)] == 0
  {
    var p := Pack(lib, order, n, i);
    PackCount(lib, order, n, i);
    SomeEmpty(p.groups);
    var e :| 0 <= e < n && p.groups[e] == [];
    PackLoad(lib, order, n, i, e);
  }

  lemma {:induction false} PackedGrows(lib: Library, order: seq<nat>, i: nat, j: nat)
    requires i <= j <= |order|
    ensures Packed(lib, order, i) <= Packed(lib, order, j)
    decreases j
  {
    if i < j {
      PackedGrows(lib, order, i, j - 1);
    }
  }

  ghost predicate AllSizesWithin(lib: Library, order: seq<nat>, max: nat) {
    forall s :: s in order ==> lib.Size(s) <= max
  }

  ghost predicate AllWithin(loads: seq<nat>, max: nat) {
    forall k :: 0 <= k < |loads| ==> loads[k] <= max
  }

  /** Room for one more shader of the size of the first that has to share, whatever the loads are. */
  ghost predicate RoomToShare(lib: Library, order: seq<nat>, n: nat, max: nat)
    requires n > 0
  {
    n < |order| ==> Packed(lib, order, |order|) + (n - 1) * lib.Size(order[n]) <= n * max
  }

  /** The next shader fits into the group of least load. */
  ghost predicate Fits(lib: Library, order: seq<nat>, n: nat, max: nat, i: nat)
    requires n > 0 && i < |order|
  {
    var p := Pack(lib, order, n, i);
    p.loads[Least(p.loads, n)] + lib.Size(order[i]) <= max
  }

  /** A shader that shares a group finds the least load at most the average. */
  lemma {:induction false} NextFits(lib: Library, order: seq<nat>, n: nat, max: nat, i: nat)
    requires n > 0 && i < |order| && Descending(lib, order) && AllSizesWithin(lib, order, max) &&
             RoomToShare(lib, order, n, max)
    ensures Fits(lib, order, n, max, i)
  {
    var p := Pack(lib, order, n, i);
    var least, size := p.loads[Least(p.loads, n)], lib.Size(order[i]);
    assert order[i] in order;
    if i < n {
      LeastIsZero(lib, order, n, i);
    } else {
      LeastIsShare(lib, order, n, i);
      PackedGrows(lib, order, i + 1, |order|);
      assert i > n ==> size <= lib.Size(order[n]);
      ShareFits(least, size, lib.Size(order[n]), n, Packed(lib, order, i), Packed(lib, order, |order|), max);
    }
  }

  lemma {:induction false} ShareFits(least: nat, size: nat, largest: nat, n: nat, packed: nat, total: nat, max: nat)
    requires n > 0 && least * n <= packed && packed + size <= total && size <= largest &&
             total + (n - 1) * largest <= n * max
    ensures least + size <= max
  {
    MultiplyBoth(size, largest, n - 1);
    assert (least + size) * n == least * n + size + size * (n - 1);
    DivideBoth(least + size, max, n);
  }

  lemma {:induction false} DivideBoth(a: nat, b: nat, n: nat)
    requires n > 0 && a * n <= b * n
    ensures a <= b
  {
    if a > b {
      MultiplyBoth(b + 1, a, n);
    }
  }

  /**
   * The limit holds for every group when no shader is larger than it and the shaders that have to share have room: this
   * can be computed from the sizes alone.
   */
  lemma {:induction false} LimitHolds(lib: Library, order: seq<nat>, n: nat, max: nat, i: nat)
    requires n > 0 && i <= |order| && Descending(lib, order) && AllSizesWithin(lib, order, max) &&
             RoomToShare(lib, order, n, max)
    ensures AllWithin(Pack(lib, order, n, i).loads, max)
  {
    forall j | 0 <= j < i ensures Fits(lib, order, n, max, j) {
      NextFits(lib, order, n, max, j);
    }
    FittingKeepsLimit(lib, order, n, max, i);
  }

  lemma {:induction false} FittingKeepsLimit(lib: Library, order: seq<nat>, n: nat, max: nat, i: nat)
    requires n > 0 && i <= |order| && forall j :: 0 <= j < i ==> Fits(lib, order, n, max, j)
    ensures AllWithin(Pack(lib, order, n, i).loads, max)
  {
    if i > 0 {
      FittingKeepsLimit(lib, order, n, max, i - 1);
      assert Fits(lib, order, n, max, i - 1);
      NextWithin(lib, Pack(lib, order, n, i - 1), n, order[i - 1], max);
    }
  }

  lemma {:induction false} NextWithin(lib: Library, p: Packing, n: nat, s: nat, max: nat)
    requires 0 < n == |p.groups| == |p.loads| && AllWithin(p.loads, max) &&
             p.loads[Least(p.loads, n)] + lib.Size(s) <= max
    ensures AllWithin(Next(lib, p, n, s).loads, max)
  {
  }

  lemma {:induction false} LoadStays(lib: Library, order: seq<nat>, n: nat, i: nat, j: nat, k: nat)
    requires n > 0 && i <= j <= |order| && k < n
    ensures Pack(lib, order, n, i).loads[k] <= Pack(lib, order, n, j).loads[k]
    decreases j
  {
    if i < j {
      LoadStays(lib, order, n, i, j - 1, k);
    }
  }

  /** Two shaders have to share a group, and they are at least as large as these two. */
  ghost predicate PairFits(lib: Library, order: seq<nat>, n: nat, max: nat)
    requires n > 0
  {
    n < |order| ==> lib.Size(order[n - 1]) + lib.Size(order[n]) <= max
  }

  /** Once `n` shaders with code are placed every group has at least the size of the last of them. */
  lemma {:induction false} EachHasOne(lib: Library, order: seq<nat>, n: nat, k: nat)
    requires 0 < n <= |order| && k < n && Descending(lib, order)
    ensures lib.Size(order[n - 1]) <= Pack(lib, order, n, n).loads[k]
  {
    if lib.Size(order[n - 1]) > 0 {
      var groups := Pack(lib, order, n, n).groups;
      assert PositiveBefore(lib, order, n);
      PackSpreads(lib, order, n, n);
      PackHolds(lib, order, n, n);
      PackLoad(lib, order, n, n, k);
      var s := groups[k][0];
      MemberOfAll(groups, k, s);
      var i :| 0 <= i < n && order[..n][i] == s;
      LoadOfMember(lib, groups[k], s);
    }
  }

  lemma {:induction false} EachIsInSome(lib: Library, order: seq<nat>, n: nat, i: nat)
    requires n > 0 && i < |order|
    ensures exists k :: 0 <= k < n && lib.Size(order[i]) <= Pack(lib, order, n, |order|).loads[k]
  {
    var k := Least(Pack(lib, order, n, i).loads, n);
    assert lib.Size(order[i]) <= Pack(lib, order, n, i + 1).loads[k];
    LoadStays(lib, order, n, i + 1, |order|, k);
  }

  lemma {:induction false} SomeHasTwo(lib: Library, order: seq<nat>, n: nat)
    requires 0 < n < |order| && Descending(lib, order)
    ensures exists k ::
      0 <= k < n && lib.Size(order[n - 1]) + lib.Size(order[n]) <= Pack(lib, order, n, |order|).loads[k]
  {
    var k := Least(Pack(lib, order, n, n).loads, n);
    EachHasOne(lib, order, n, k);
    assert lib.Size(order[n - 1]) + lib.Size(order[n]) <= Pack(lib, order, n, n + 1).loads[k];
    LoadStays(lib, order, n, n + 1, |order|, k);
  }

  /** A shader larger than the limit or a pair that does not fit exceeds it. */
  lemma {:induction false} LimitNeeds(lib: Library, order: seq<nat>, n: nat, max: nat)
    requires n > 0 && Descending(lib, order) && AllWithin(Pack(lib, order, n, |order|).loads, max)
    ensures AllSizesWithin(lib, order, max) && PairFits(lib, order, n, max)
  {
    forall s | s in order ensures lib.Size(s) <= max {
      var i :| 0 <= i < |order| && order[i] == s;
      EachIsInSome(lib, order, n, i);
    }
    if n < |order| {
      SomeHasTwo(lib, order, n);
    }
  }

  /** With at most one shader more than groups the two conditions say exactly when the limit holds. */
  lemma {:induction false} LimitHoldsIff(lib: Library, order: seq<nat>, n: nat, max: nat)
    requires n > 0 && |order| <= n + 1 && Descending(lib, order)
    ensures AllWithin(Pack(lib, order, n, |order|).loads, max) <==>
      AllSizesWithin(lib, order, max) && PairFits(lib, order, n, max)
  {
    if AllWithin(Pack(lib, order, n, |order|).loads, max) {
      LimitNeeds(lib, order, n, max);
    } else if AllSizesWithin(lib, order, max) && PairFits(lib, order, n, max) {
      if |order| <= n {
        LimitHolds(lib, order, n, max, |order|);
      } else {
        PairIsPlaced(lib, order, n, max);
      }
    }
  }

  lemma {:induction false} PairIsPlaced(lib: Library, order: seq<nat>, n: nat, max: nat)
    requires n > 0 && |order| == n + 1 && Descending(lib, order) && AllSizesWithin(lib, order, max) &&
             PairFits(lib, order, n, max)
    ensures AllWithin(Pack(lib, order, n, |order|).loads, max)
  {
    var p, last := Pack(lib, order, n, n), Least(Pack(lib, order, n, n - 1).loads, n);
    LimitHolds(lib, order[..n], n, max, n);
    PackOfPrefix(lib, order, n, n);
    LeastIsZero(lib, order, n, n - 1);
    assert p.loads[last] == lib.Size(order[n - 1]);
    assert p.loads[Least(p.loads, n)] <= p.loads[last];
  }

  lemma {:induction false} PackOfPrefix(lib: Library, order: seq<nat>, n: nat, i: nat)
    requires 0 < n <= |order| && i <= n
    ensures Pack(lib, order[..n], n, i) == Pack(lib, order, n, i)
  {
    if i > 0 {
      PackOfPrefix(lib, order, n, i - 1);
    }
  }

  // ---- Splitting by size ----

  /** The comparison of `sort_shaders_ascending`. */
  predicate CodeLe(a: CodeEntry, b: CodeEntry) {
    if a.uncompressedSize != b.uncompressedSize then a.uncompressedSize < b.uncompressedSize
    else if a.size != b.size then a.size < b.size
    else if a.frequency != b.frequency then a.frequency < b.frequency
    else a.offset <= b.offset
  }

  /** In that order: by uncompressed size, then by size, then by frequency, then by offset. */
  ghost predicate InCodeOrder(a: CodeEntry, b: CodeEntry) {
    && a.uncompressedSize <= b.uncompressedSize
    && (a.uncompressedSize == b.uncompressedSize ==>
          && a.size <= b.size
          && (a.size == b.size ==> a.frequency <= b.frequency && (a.frequency == b.frequency ==> a.offset <= b.offset)))
  }

  ghost predicate DescendingCode(lib: Library, order: seq<nat>) {
    forall i, j :: 0 <= i < j < |order| ==> InCodeOrder(CodeOf(lib, order[j]), CodeOf(lib, order[i]))
  }

  function CodeOf(lib: Library, s: nat): CodeEntry {
    if s < |lib.entries| then lib.entries[s] else CodeEntry(0, 0, 0, 0)
  }

  lemma {:induction false} CodeOrder(lib: Library, ascending: (nat, nat) -> bool, descending: (nat, nat) -> bool)
    requires forall a: nat, b: nat :: ascending(a, b) == CodeLe(CodeOf(lib, a), CodeOf(lib, b))
    requires forall a: nat, b: nat :: descending(a, b) == CodeLe(CodeOf(lib, b), CodeOf(lib, a))
    ensures TotalOrder(ascending) && TotalOrder(descending)
  {
  }

  /** A group with several shaders is within the limit, or below it without its smallest one. */
  ghost predicate Bounded(lib: Library, g: seq<nat>, max: nat) {
    |g| > 1 && Load(lib, g) > max ==> exists s :: s in g && SmallestIn(lib, g, s) && Load(lib, g) - lib.Size(s) < max
  }

  ghost predicate SmallestIn(lib: Library, g: seq<nat>, s: nat) {
    forall t :: t in g ==> lib.Size(s) <= lib.Size(t)
  }

  /** So such a group is smaller than twice the limit. */
  lemma {:induction false} BelowTwice(lib: Library, g: seq<nat>, max: nat)
    requires max > 0 && Bounded(lib, g, max) && |g| > 1
    ensures Load(lib, g) < 2 * max
  {
    if Load(lib, g) > max {
      var s :| s in g && SmallestIn(lib, g, s) && Load(lib, g) - lib.Size(s) < max;
      var k :| 0 <= k < |g| && g[k] == s;
      var rest := g[..k] + g[k + 1..];
      LoadWithout(lib, g, k);
      assert rest[0] in rest;
      LoadOfMember(lib, rest, rest[0]);
      assert rest[0] == if k > 0 then g[0] else g[1];
      assert rest[0] in g;
    }
  }

  lemma {:induction false} BoundedOfSame(lib: Library, g: seq<nat>, h: seq<nat>, max: nat)
    requires Bounded(lib, g, max) && multiset(g) == multiset(h)
    ensures Bounded(lib, h, max)
  {
    SameLength(g, h);
    LoadOfSame(lib, g, h);
    forall s ensures s in g <==> s in h {
      SameMembers(g, h, s);
    }
    if |g| > 1 && Load(lib, g) > max {
      var s :| s in g && SmallestIn(lib, g, s) && Load(lib, g) - lib.Size(s) < max;
      assert s in h && SmallestIn(lib, h, s);
    }
  }

  lemma {:induction false} ShareBelow(before: nat, n: nat, total: nat, max: nat)
    requires max > 0 && before * n <= total && n == total / max + 1
    ensures before < max
  {
    assert total < n * max by {
      assert total == max * (total / max) + total % max;
      assert n * max == max * (total / max) + max;
    }
    if before >= max {
      MultiplyBoth(max, before, n);
    }
  }

  lemma {:induction false} MultiplyBoth(a: nat, b: nat, n: nat)
    requires a <= b
    ensures a * n <= b * n
  {
  }

  /** With as many groups as shaders a group with several shaders has no code at all. */
  lemma {:induction false} OneEach(lib: Library, order: seq<nat>, k: nat)
    requires order != [] && k < |order| && Descending(lib, order)
    ensures var p := Pack(lib, order, |order|, |order|); |p.groups[k]| > 1 ==> p.loads[k] == 0
  {
    var n, p := |order|, Positives(lib, order);
    PositivesFirst(lib, order);
    if p < n {
      PackSpreads(lib, order, n, p);
      PackSpreads(lib, order, n, p + 1);
      LeastIsEmpty(lib, order, n, p);
      ZerosTogether(lib, order, n, p, n);
      ZerosTogether(lib, order, n, p, p + 1);
    } else {
      PackSpreads(lib, order, n, n);
    }
  }

  /** A packing into as many groups as the source asks for keeps the bound. */
  lemma {:induction false} PackingBounded(lib: Library, order: seq<nat>, max: nat, k: nat)
    requires max > 0 && order != [] && Descending(lib, order)
    requires k < GroupCount(lib, order, max)
    ensures Bounded(lib, Pack(lib, order, GroupCount(lib, order, max), |order|).groups[k], max)
  {
    var n := GroupCount(lib, order, max);
    var p := Pack(lib, order, n, |order|);
    PackLoad(lib, order, n, |order|, k);
    if n < Load(lib, order) / max + 1 {
      OneEach(lib, order, k);
    } else if p.groups[k] != [] {
      FairIsBounded(lib, order, n, max, k);
    }
  }

  lemma {:induction false} FairIsBounded(lib: Library, order: seq<nat>, n: nat, max: nat, k: nat)
    requires max > 0 && n == Load(lib, order) / max + 1 && k < n && Descending(lib, order)
    requires Pack(lib, order, n, |order|).groups[k] != []
    ensures Bounded(lib, Pack(lib, order, n, |order|).groups[k], max)
  {
    var p := Pack(lib, order, n, |order|);
    var g := p.groups[k];
    assert order[..|order|] == order;
    PackFair(lib, order, n, |order|, k);
    PackedIsLoad(lib, order, |order|);
    PackLoad(lib, order, n, |order|, k);
    var s := g[|g| - 1];
    assert s in g && SmallestIn(lib, g, s);
    ShareBelow(p.loads[k] - lib.Size(s), n, Load(lib, order), max);
  }

  ghost function GroupCount(lib: Library, x: seq<nat>, max: nat): (n: nat)
    requires max > 0 && x != []
    ensures n > 0
  {
    if Load(lib, x) / max + 1 <= |x| then Load(lib, x) / max + 1 else |x|
  }

  ghost predicate AllLoadsWithin(lib: Library, groups: seq<seq<nat>>, max: nat) {
    forall k :: 0 <= k < |groups| ==> Load(lib, groups[k]) <= max
  }

  lemma {:induction false} LoadsOfGroups(lib: Library, order: seq<nat>, n: nat, max: nat)
    requires n > 0
    ensures var p := Pack(lib, order, n, |order|); AllWithin(p.loads, max) <==> AllLoadsWithin(lib, p.groups, max)
  {
    forall k: nat | k < n
      ensures Pack(lib, order, n, |order|).loads[k] == Load(lib, Pack(lib, order, n, |order|).groups[k]) {
      PackLoad(lib, order, n, |order|, k);
    }
  }

  /**
   * When the parts of a split group are within the limit: no shader may be larger than it and the first two that must
   * share have to fit. With at most one shader more than parts that is exact; with more it is enough that a shader of
   * the size of the first one that must share fits beside the average load.
   */
  lemma {:induction false} SplitWithinLimit(lib: Library, order: seq<nat>, max: nat)
    requires max > 0 && order != [] && Descending(lib, order)
    ensures var n := GroupCount(lib, order, max); var parts := Pack(lib, order, n, |order|).groups;
      && (AllLoadsWithin(lib, parts, max) ==> AllSizesWithin(lib, order, max) && PairFits(lib, order, n, max))
      && (AllSizesWithin(lib, order, max) && RoomToShare(lib, order, n, max) ==> AllLoadsWithin(lib, parts, max))
      && (|order| <= n + 1 ==>
          (AllLoadsWithin(lib, parts, max) <==> AllSizesWithin(lib, order, max) && PairFits(lib, order, n, max)))
  {
    var n := GroupCount(lib, order, max);
    LoadsOfGroups(lib, order, n, max);
    if AllLoadsWithin(lib, Pack(lib, order, n, |order|).groups, max) {
      LimitNeeds(lib, order, n, max);
    }
    if AllSizesWithin(lib, order, max) && RoomToShare(lib, order, n, max) {
      LimitHolds(lib, order, n, max, |order|);
    }
    if |order| <= n + 1 {
      LimitHoldsIff(lib, order, n, max);
    }
  }

  method SumSizes(lib: Library, x: seq<nat>) returns (size: nat)
    ensures size == Load(lib, x)
  {
    size := 0;
    for i := 0 to |x|
      invariant size == Load(lib, x[..i])
    {
      assert x[..i + 1] == x[..i] + [x[i]];
      LoadAppend(lib, x[..i], x[i]);
      size := size + lib.Size(x[i]);
    }
    assert x[..|x|] == x;
  }

  /** Groups that are left alone. */
  ghost predicate Small(lib: Library, x: seq<nat>, max: nat) {
    Load(lib, x) <= max || |x| == 1
  }

  /** Parts of a group that together are the group. */
  ghost predicate SplitOf(lib: Library, parts: seq<seq<nat>>, x: seq<nat>, max: nat) {
    && AllOf(parts) == multiset(x)
    && forall p :: p in parts ==> Bounded(lib, p, max) && forall s :: s in p ==> s in x
  }

  /** A group that is split has enough shaders with code to put one into every part but one. */
  ghost predicate Fills(lib: Library, x: seq<nat>, max: nat)
    requires max > 0 && x != []
  {
    Small(lib, x, max) || GroupCount(lib, x, max) <= Positives(lib, x) + 1
  }

  lemma {:induction false} WholeIsSplit(lib: Library, x: seq<nat>, max: nat)
    requires x != [] && Small(lib, x, max)
    ensures SplitOf(lib, [x], x, max)
  {
    AllOfOne(x);
  }

  lemma {:induction false} PackingIsSplit(lib: Library, x: seq<nat>, order: seq<nat>, max: nat)
    requires max > 0 && x != [] && multiset(order) == multiset(x) && order != [] && Descending(lib, order)
    ensures SplitOf(lib, Pack(lib, order, GroupCount(lib, order, max), |order|).groups, x, max)
  {
    var n := GroupCount(lib, order, max);
    var groups := Pack(lib, order, n, |order|).groups;
    PackHolds(lib, order, n, |order|);
    assert order[..|order|] == order;
    forall s ensures s in order <==> s in x {
      SameMembers(order, x, s);
    }
    forall p | p in groups ensures Bounded(lib, p, max) && forall s :: s in p ==> s in x {
      var k :| 0 <= k < |groups| && groups[k] == p;
      PackingBounded(lib, order, max, k);
      forall s | s in p ensures s in x {
        MemberOfAll(groups, k, s);
        assert s in order;
      }
    }
  }

  /** The parts are all filled exactly when the group has enough shaders with code. */
  lemma {:induction false} PackingFills(lib: Library, x: seq<nat>, order: seq<nat>, max: nat)
    requires max > 0 && x != [] && multiset(order) == multiset(x) && order != [] && Descending(lib, order) &&
             !Small(lib, x, max)
    ensures GroupCount(lib, order, max) == GroupCount(lib, x, max)
    ensures NoEmptyGroup(Pack(lib, order, GroupCount(lib, order, max), |order|).groups) <==> Fills(lib, x, max)
  {
    SameLength(order, x);
    LoadOfSame(lib, order, x);
    LoadOfSame(Ones(lib), order, x);
    FilledIffPositives(lib, order, GroupCount(lib, order, max));
  }

  /** Number of parts that a group is split into. */
  ghost function PartCount(lib: Library, x: seq<nat>, max: nat): nat
    requires max > 0
  {
    if Small(lib, x, max) then 1 else GroupCount(lib, x, max)
  }

  ghost function PartsOfAll(lib: Library, groups: seq<seq<nat>>, max: nat): nat
    requires max > 0
  {
    if groups == [] then 0 else PartsOfAll(lib, groups[..|groups| - 1], max) + PartCount(lib, groups[|groups| - 1], max)
  }

  /** One group: left alone if it is small or has one shader, otherwise packed largest first. */
  method SplitOne(lib: Library, x: seq<nat>, max: nat) returns (parts: seq<seq<nat>>, ghost order: seq<nat>)
    requires max > 0 && x != []
    ensures multiset(order) == multiset(x)
    ensures Load(lib, x) > max && |x| > 1 ==>
      DescendingCode(lib, order) && |parts| == if Load(lib, x) / max + 1 < |x| then Load(lib, x) / max + 1 else |x|
    ensures Load(lib, x) <= max || |x| == 1 ==> parts == [x]
    ensures !Small(lib, x, max) ==>
      Descending(lib, order) && parts == Pack(lib, order, GroupCount(lib, x, max), |order|).groups
    ensures SplitOf(lib, parts, x, max) && |parts| == PartCount(lib, x, max)
    ensures NoEmptyGroup(parts) <==> Fills(lib, x, max)
    ensures Small(lib, x, max) ==> parts == [x]
  {
    var size := SumSizes(lib, x);
    if size <= max || |x| == 1 {
      WholeIsSplit(lib, x, max);
      return [x], x;
    }
    var n := if size / max + 1 <= |x| then size / max + 1 else |x|;
    var sorted := SortDescending(lib, x);
    order := sorted;
    SplitPacked(lib, x, sorted, n, max);
    parts := PackGreedily(lib, sorted, n);
  }

  /** Largest first. */
  method SortDescending(lib: Library, x: seq<nat>) returns (order: seq<nat>)
    ensures multiset(order) == multiset(x) && Descending(lib, order) && DescendingCode(lib, order)
  {
    var ascending := (a: nat, b: nat) => CodeLe(CodeOf(lib, a), CodeOf(lib, b));
    var descending := (a: nat, b: nat) => CodeLe(CodeOf(lib, b), CodeOf(lib, a));
    CodeOrder(lib, ascending, descending);
    order := SortBy(x, descending);
    SortedDescends(lib, order, descending);
  }

  lemma {:induction false} SplitPacked(lib: Library, x: seq<nat>, order: seq<nat>, n: nat, max: nat)
    requires max > 0 && x != [] && multiset(order) == multiset(x) && Descending(lib, order) && !Small(lib, x, max)
    requires n == GroupCount(lib, x, max)
    ensures var parts := Pack(lib, order, n, |order|).groups;
      SplitOf(lib, parts, x, max) && |parts| == PartCount(lib, x, max) && (NoEmptyGroup(parts) <==> Fills(lib, x, max))
  {
    SameLength(order, x);
    PackingFills(lib, x, order, max);
    PackingIsSplit(lib, x, order, max);
  }

  lemma {:induction false} SortedDescends(lib: Library, order: seq<nat>, descending: (nat, nat) -> bool)
    requires forall a: nat, b: nat :: descending(a, b) == CodeLe(CodeOf(lib, b), CodeOf(lib, a))
    requires Sorted(order, descending)
    ensures Descending(lib, order) && DescendingCode(lib, order)
  {
    forall i, j | 0 <= i < j < |order|
      ensures lib.Size(order[j]) <= lib.Size(order[i]) && InCodeOrder(CodeOf(lib, order[j]), CodeOf(lib, order[i]))
    {
      assert descending(order[i], order[j]);
    }
  }

  ghost predicate AllBounded(lib: Library, groups: seq<seq<nat>>, max: nat) {
    forall g :: g in groups ==> Bounded(lib, g, max)
  }

  /** Every group that is small is still there. */
  ghost predicate SmallStay(lib: Library, parts: seq<seq<nat>>, groups: seq<seq<nat>>, max: nat) {
    forall g :: g in groups && Small(lib, g, max) ==> g in parts
  }

  ghost predicate AllFill(lib: Library, groups: seq<seq<nat>>, max: nat)
    requires max > 0
  {
    forall g :: g in groups && g != [] ==> Fills(lib, g, max)
  }

  /** Every group is split by itself: nothing is lost, parts are bounded and as many as asked for, small groups stay. */
  ghost predicate SplitInto(lib: Library, parts: seq<seq<nat>>, groups: seq<seq<nat>>, max: nat)
    requires max > 0
  {
    && Refines(parts, groups) && AllBounded(lib, parts, max) && (NoEmptyGroup(parts) <==> AllFill(lib, groups, max))
    && |parts| == PartsOfAll(lib, groups, max) && SmallStay(lib, parts, groups, max)
  }

  lemma {:induction false} OneMoreSplit(lib: Library, parts: seq<seq<nat>>, groups: seq<seq<nat>>, more: seq<seq<nat>>,
                                        x: seq<nat>, max: nat)
    requires max > 0 && x != [] && SplitInto(lib, parts, groups, max) && SplitOf(lib, more, x, max)
    requires |more| == PartCount(lib, x, max) && (NoEmptyGroup(more) <==> Fills(lib, x, max)) &&
             (Small(lib, x, max) ==> more == [x])
    ensures SplitInto(lib, parts + more, groups + [x], max)
  {
    RefinesAppend(parts, groups, more, x);
    FillAppend(lib, parts, groups, more, x, max);
    assert (groups + [x])[..|groups|] == groups;
    forall g | g in groups + [x] && Small(lib, g, max) ensures g in parts + more {
      if g in groups {
        assert g in parts;
      } else {
        assert g in more;
      }
    }
  }

  lemma {:induction false} FillAppend(lib: Library, parts: seq<seq<nat>>, groups: seq<seq<nat>>, more: seq<seq<nat>>,
                                      x: seq<nat>, max: nat)
    requires max > 0 && x != []
    requires (NoEmptyGroup(parts) <==> AllFill(lib, groups, max)) && (NoEmptyGroup(more) <==> Fills(lib, x, max))
    ensures NoEmptyGroup(parts + more) <==> AllFill(lib, groups + [x], max)
  {
    assert NoEmptyGroup(parts + more) <==> NoEmptyGroup(parts) && NoEmptyGroup(more) by {
      assert forall g :: g in parts + more <==> g in parts || g in more;
    }
    assert forall g :: g in groups + [x] <==> g in groups || g == x;
  }

  /** All groups in turn. */
  method SplitBySize(lib: Library, groups: seq<seq<nat>>, max: nat) returns (parts: seq<seq<nat>>)
    requires max > 0 && NoEmptyGroup(groups)
    ensures SplitInto(lib, parts, groups, max)
  {
    parts := [];
    for k := 0 to |groups|
      invariant SplitInto(lib, parts, groups[..k], max)
    {
      assert groups[..k + 1] == groups[..k] + [groups[k]] && groups[k] in groups;
      var more, _ := SplitOne(lib, groups[k], max);
      OneMoreSplit(lib, parts, groups[..k], more, groups[k], max);
      parts := parts + more;
    }
    assert groups[..|groups|] == groups;
  }

  /** One step of a packing, computed. */
  lemma {:induction false} PackNext(lib: Library, order: seq<nat>, n: nat, i: nat, groups: seq<seq<nat>>,
                                    loads: seq<nat>, k: nat)
    requires 0 < n == |loads| == |groups| && i < |order| && Pack(lib, order, n, i) == Packing(groups, loads) && k < n
    requires (forall j :: 0 <= j < n ==> loads[k] <= loads[j]) && (forall j :: 0 <= j < k ==> loads[k] < loads[j])
    ensures Pack(lib, order, n, i + 1)
      == Packing(groups[k := groups[k] + [order[i]]], loads[k := loads[k] + lib.Size(order[i])])
  {
    assert Least(loads, n) == k;
  }

  lemma {:induction false} LoadOfThree(lib: Library, a: nat, b: nat, c: nat)
    ensures Load(lib, [a, b]) == lib.Size(a) + lib.Size(b)
    ensures Load(lib, [a, b, c]) == lib.Size(a) + lib.Size(b) + lib.Size(c)
  {
    LoadAppend(lib, [], a);
    LoadAppend(lib, [a], b);
    LoadAppend(lib, [a, b], c);
    assert [] + [a] == [a] && [a] + [b] == [a, b] && [a, b] + [c] == [a, b, c];
  }

  /**
   * The limit itself can be exceeded: three shaders of size 6 and a limit of 10 give a group of size 12, since the pair
   * 6 and 6 that has to share does not fit.
   */
  lemma {:induction false} LimitCanBeExceeded()
    ensures var lib := Library([], [], [CodeEntry(0, 6, 6, 0), CodeEntry(6, 6, 6, 0), CodeEntry(12, 6, 6, 0)]);
      GroupCount(lib, [0, 1, 2], 10) == 2 && Load(lib, Pack(lib, [0, 1, 2], 2, 3).groups[0]) == 12
  {
    var lib := Library([], [], [CodeEntry(0, 6, 6, 0), CodeEntry(6, 6, 6, 0), CodeEntry(12, 6, 6, 0)]);
    LoadOfThree(lib, 0, 1, 2);
    LoadOfThree(lib, 0, 2, 0);
    var p0 := EmptyPacking(2);
    PackNext(lib, [0, 1, 2], 2, 0, p0.groups, p0.loads, 0);
    var p1 := Pack(lib, [0, 1, 2], 2, 1);
    PackNext(lib, [0, 1, 2], 2, 1, p1.groups, p1.loads, 1);
    var p2 := Pack(lib, [0, 1, 2], 2, 2);
    PackNext(lib, [0, 1, 2], 2, 2, p2.groups, p2.loads, 0);
    assert Pack(lib, [0, 1, 2], 2, 3).groups[0] == [0, 2];
  }

  /**
   * Shaders without code can leave a group empty: sizes 20, 0 and 0 with a limit of 10 ask for three groups and fill
   * two,
   * as `FilledIffPositives` says of three groups and one shader with code.
   */
  lemma {:induction false} EmptyCodeLeavesEmptyGroup()
    ensures var lib := Library([], [], [CodeEntry(0, 20, 20, 0), CodeEntry(20, 0, 0, 0), CodeEntry(20, 0, 0, 0)]);
      GroupCount(lib, [0, 1, 2], 10) == 3 && Pack(lib, [0, 1, 2], 3, 3).groups[2] == []
  {
    var lib := Library([], [], [CodeEntry(0, 20, 20, 0), CodeEntry(20, 0, 0, 0), CodeEntry(20, 0, 0, 0)]);
    LoadOfThree(lib, 0, 1, 2);
    var p0 := EmptyPacking(3);
    PackNext(lib, [0, 1, 2], 3, 0, p0.groups, p0.loads, 0);
    var p1 := Pack(lib, [0, 1, 2], 3, 1);
    PackNext(lib, [0, 1, 2], 3, 1, p1.groups, p1.loads, 1);
    var p2 := Pack(lib, [0, 1, 2], 3, 2);
    PackNext(lib, [0, 1, 2], 3, 2, p2.groups, p2.loads, 1);
  }

  // ---- All of it ----

  /** What the grouping of a library guarantees. */
  ghost predicate Grouping(lib: Library, groups: seq<seq<nat>>, max: nat)
    requires lib.Valid()
  {
    && AllOf(groups) == multiset(Numbers(|lib.entries|))
    && AllBounded(lib, groups, max)
    && (forall g :: g in groups ==> AscendingCode(lib, g))
    && (forall g :: g in groups ==> SameReferences(lib, g))
  }

  ghost predicate AscendingCode(lib: Library, g: seq<nat>) {
    forall i, j :: 0 <= i < j < |g| ==> InCodeOrder(CodeOf(lib, g[i]), CodeOf(lib, g[j]))
  }

  ghost predicate SameReferences(lib: Library, g: seq<nat>)
    requires lib.Valid()
  {
    forall s, t :: s in g && t in g ==> References(lib, s) == References(lib, t)
  }

  lemma {:induction false} RefinedReferences(lib: Library, parts: seq<seq<nat>>, groups: seq<seq<nat>>)
    requires lib.Valid() && Refines(parts, groups) && forall g :: g in groups ==> SameReferences(lib, g)
    ensures forall p :: p in parts ==> SameReferences(lib, p)
  {
    forall p | p in parts ensures SameReferences(lib, p) {
      var g :| g in groups && forall s :: s in p ==> s in g;
    }
  }

  /** The same groups up to the order within each. */
  ghost predicate SameGroups(a: seq<seq<nat>>, b: seq<seq<nat>>) {
    |a| == |b| && forall k :: 0 <= k < |a| ==> multiset(a[k]) == multiset(b[k])
  }

  lemma {:induction false} SameGroupsRefine(a: seq<seq<nat>>, b: seq<seq<nat>>)
    requires SameGroups(a, b)
    ensures Refines(a, b) && (NoEmptyGroup(a) <==> NoEmptyGroup(b))
  {
    SameAllOf(a, b);
    SameEmpty(a, b);
    forall p | p in a ensures WithinOne(p, b) {
      var k :| 0 <= k < |a| && a[k] == p;
      SameLength(p, b[k]);
      forall s | s in p ensures s in b[k] {
        SameMembers(p, b[k], s);
      }
      assert b[k] in b;
    }
  }

  lemma {:induction false} SameEmpty(a: seq<seq<nat>>, b: seq<seq<nat>>)
    requires SameGroups(a, b)
    ensures NoEmptyGroup(a) <==> NoEmptyGroup(b)
  {
    forall k | 0 <= k < |a| ensures a[k] == [] <==> b[k] == [] {
      SameLength(a[k], b[k]);
    }
    assert forall k :: 0 <= k < |a| ==> a[k] in a && b[k] in b;
  }

  lemma {:induction false} SameAllOf(a: seq<seq<nat>>, b: seq<seq<nat>>)
    requires SameGroups(a, b)
    ensures AllOf(a) == AllOf(b)
  {
    if a != [] {
      SameAllOf(a[..|a| - 1], b[..|b| - 1]);
    }
  }

  /** Each group in ascending order: only the order within groups changes. */
  method SortGroups(lib: Library, groups: seq<seq<nat>>, max: nat) returns (sorted: seq<seq<nat>>)
    requires AllBounded(lib, groups, max)
    ensures SameGroups(sorted, groups) && AllBounded(lib, sorted, max) && forall g ::
      g in sorted ==> AscendingCode(lib, g)
  {
    sorted := [];
    var ascending := (a: nat, b: nat) => CodeLe(CodeOf(lib, a), CodeOf(lib, b));
    var descending := (a: nat, b: nat) => CodeLe(CodeOf(lib, b), CodeOf(lib, a));
    CodeOrder(lib, ascending, descending);
    for k := 0 to |groups|
      invariant SameGroups(sorted, groups[..k]) && AllBounded(lib, sorted, max) && forall g ::
        g in sorted ==> AscendingCode(lib, g)
    {
      assert groups[k] in groups;
      var g := SortBy(groups[k], ascending);
      BoundedOfSame(lib, groups[k], g, max);
      assert forall i, j :: 0 <= i < j < |g| ==> ascending(g[i], g[j]);
      sorted := sorted + [g];
    }
    assert groups[..|groups|] == groups;
  }

  /** How groups come out of whole classes: small ones unsplit, the others in as many parts as their size asks for. */
  ghost predicate SplitUp(lib: Library, groups: seq<seq<nat>>, whole: seq<seq<nat>>, max: nat)
    requires max > 0
  {
    && Refines(groups, whole) && NoEmptyGroup(whole) && |groups| == PartsOfAll(lib, whole, max)
    && (NoEmptyGroup(groups) <==> AllFill(lib, whole, max))
    && forall g :: g in whole && Small(lib, g, max) ==> Unsplit(groups, g)
  }

  ghost predicate Unsplit(groups: seq<seq<nat>>, g: seq<nat>) {
    exists k :: 0 <= k < |groups| && multiset(groups[k]) == multiset(g)
  }

  lemma {:induction false} SortedSplitUp(lib: Library, sorted: seq<seq<nat>>, parts: seq<seq<nat>>,
                                         whole: seq<seq<nat>>, max: nat)
    requires max > 0 && NoEmptyGroup(whole) && Refines(parts, whole) &&
             (NoEmptyGroup(parts) <==> AllFill(lib, whole, max))
    requires |parts| == PartsOfAll(lib, whole, max) && SmallStay(lib, parts, whole, max)
    requires SameGroups(sorted, parts)
    ensures SplitUp(lib, sorted, whole, max)
  {
    SameGroupsRefine(sorted, parts);
    RefinesTransitive(sorted, parts, whole);
    forall g: seq<nat> | g in whole && Small(lib, g, max) ensures Unsplit(sorted, g) {
      assert g in parts;
      var k :| 0 <= k < |parts| && parts[k] == g;
      assert multiset(sorted[k]) == multiset(g);
    }
  }

  lemma {:induction false} ClassReferences(lib: Library, separate: bool, whole: seq<seq<nat>>)
    requires lib.Valid() && Classes(lib, separate, whole)
    ensures forall g :: g in whole ==> SameReferences(lib, g)
  {
    forall g | g in whole ensures SameReferences(lib, g) {
      var k :| 0 <= k < |whole| && whole[k] == g;
      assert forall s, t :: s in whole[k] && t in whole[k] ==> SameClass(lib, separate, s, t);
    }
  }

  /** Shaders by their classes: by the maps that reference them and, when asked for, by their kind. */
  method FormClasses(lib: Library, separateRaytracing: bool) returns (whole: seq<seq<nat>>)
    requires lib.Valid()
    ensures Classes(lib, separateRaytracing, whole)
  {
    var byMaps := GroupByMaps(lib);
    GroupedClasses(lib, byMaps);
    whole := byMaps;
    if separateRaytracing {
      whole := SeparateRaytracing(lib, byMaps);
      SeparatedClasses(lib, whole, byMaps);
    }
  }

  /** All shaders of a group are raytracing shaders, with frequencies 6 to 9, or none is. */
  ghost predicate OfOneKind(lib: Library, g: seq<nat>) {
    forall s, t :: s in g && t in g && s < |lib.entries| && t < |lib.entries| ==>
      (6 <= lib.entries[s].frequency <= 9 <==> 6 <= lib.entries[t].frequency <= 9)
  }

  /**
   * The groups of a library, as `build_io_store_shader_code_archive_header` forms them: `whole` are the classes before
   * they are split by size.
   */
  method BuildGroups(lib: Library, separateRaytracing: bool, max: nat)
    returns (groups: seq<seq<nat>>, ghost whole: seq<seq<nat>>)
    requires lib.Valid() && max > 0
    ensures Grouping(lib, groups, max)
    ensures Classes(lib, separateRaytracing, whole) && SplitUp(lib, groups, whole, max)
    ensures separateRaytracing ==> forall k :: 0 <= k < |groups| ==> OfOneKind(lib, groups[k])
  {
    var classes := FormClasses(lib, separateRaytracing);
    whole := classes;
    var parts := SplitBySize(lib, classes, max);
    groups := SortGroups(lib, parts, max);
    SortedSplitUp(lib, groups, parts, classes, max);
    ClassReferences(lib, separateRaytracing, classes);
    RefinedReferences(lib, groups, classes);
    if separateRaytracing {
      RefinedKinds(lib, groups, classes);
    }
  }

  lemma {:induction false} RefinedKinds(lib: Library, groups: seq<seq<nat>>, whole: seq<seq<nat>>)
    requires lib.Valid() && Classes(lib, true, whole) && Refines(groups, whole)
    ensures forall k :: 0 <= k < |groups| ==> OfOneKind(lib, groups[k])
  {
    forall k | 0 <= k < |groups| ensures OfOneKind(lib, groups[k]) {
      assert groups[k] in groups;
      var i := PartHasGroup(groups, whole, groups[k]);
      assert forall s, t :: s in whole[i] && t in whole[i] ==> SameClass(lib, true, s, t);
    }
  }

  /** Every shader has one place in the groups. */
  lemma {:induction false} OnePlace(groups: seq<seq<nat>>, n: nat, s: nat)
    requires AllOf(groups) == multiset(Numbers(n)) && s < n
    ensures exists k :: 0 <= k < |groups| && s in groups[k]
  {
    assert Numbers(n)[s] == s;
    assert s in multiset(Numbers(n));
    SomeGroup(groups, s);
  }

  lemma {:induction false} SomeGroup(groups: seq<seq<nat>>, s: nat)
    requires s in AllOf(groups)
    ensures exists k :: 0 <= k < |groups| && s in groups[k]
  {
    var front, last := groups[..|groups| - 1], |groups| - 1;
    if s in groups[last] {
    } else {
      SomeGroup(front, s);
      var k :| 0 <= k < |front| && s in front[k];
      assert s in groups[k];
    }
  }
}
