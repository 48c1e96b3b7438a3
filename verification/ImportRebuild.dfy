/** Rebuilding the legacy import map: the reorder plan, and remapping every reference in place. */
module ImportRebuild {
  import opened Package

  const USIZE_MAX: nat := 0xFFFF_FFFF_FFFF_FFFF

  // ---- The reorder plan ----

  /** For each final position the current import it holds, and for each current import its final position. */
  datatype ImportReorderPlan = ImportReorderPlan(importOrder: seq<Option<nat>>, importRemap: map<nat, nat>)

  /** How many of the numbers below `n` are in `s`. */
  ghost function CountBelow(s: set<nat>, n: nat): nat {
    if n == 0 then 0 else CountBelow(s, n - 1) + if n - 1 in s then 1 else 0
  }

  lemma {:induction false} CountBelowIgnores(s: set<nat>, x: nat, n: nat)
    requires n <= x
    ensures CountBelow(s - {x}, n) == CountBelow(s, n)
  {
    if n > 0 {
      CountBelowIgnores(s, x, n - 1);
    }
  }

  lemma {:induction false} CountBelowSize(s: set<nat>, n: nat)
    requires forall x :: x in s ==> x < n
    ensures CountBelow(s, n) == |s|
  {
    if n > 0 && n - 1 in s {
      CountBelowSize(s - {n - 1}, n - 1);
      CountBelowIgnores(s, n - 1, n - 1);
    } else if n > 0 {
      CountBelowSize(s, n - 1);
    } else {
      assert s == {};
    }
  }

  /** A map has no more values than keys. */
  lemma {:induction false} ValuesNoMoreThanKeys(m: map<nat, nat>)
    ensures |m.Values| <= |m|
    decreases |m|
  {
    if k :| k in m {
      var rest := m - {k};
      assert rest.Keys == m.Keys - {k} && |rest.Keys| == |rest| && |m.Keys| == |m|;
      ValuesNoMoreThanKeys(rest);
      forall v | v in m.Values ensures v in rest.Values + {m[k]} {
        var l :| l in m && m[l] == v;
        if l != k {
          assert l in rest && rest[l] == v;
        }
      }
      SubsetSize(m.Values, rest.Values + {m[k]});
    } else {
      assert m.Values == {};
    }
  }

  /** Original positions that share their resolved import with another one. */
  function Duplicates(original: map<nat, nat>): nat {
    ValuesNoMoreThanKeys(original);
    |original| - |original.Values|
  }

  /** Current imports without an original position, in increasing order. */
  ghost function Unplaced(placed: set<nat>, n: nat): seq<nat> {
    if n == 0 then []
    else if n - 1 in placed then Unplaced(placed, n - 1)
    else Unplaced(placed, n - 1) + [n - 1]
  }

  lemma {:induction false} UnplacedExact(placed: set<nat>, n: nat)
    ensures forall c: nat :: c in Unplaced(placed, n) <==> c < n && c !in placed
    ensures Distinct(Unplaced(placed, n))
    ensures |Unplaced(placed, n)| + CountBelow(placed, n) == n
  {
    if n > 0 {
      UnplacedExact(placed, n - 1);
    }
  }

  /** The positions that the plan may start from: inside the zen import map, and naming existing imports. */
  predicate PositionsValid(current: nat, zenCount: nat, original: map<nat, nat>) {
    forall k :: k in original ==> k < zenCount && original[k] < current
  }

  /** Each predefined slot holds its import. */
  ghost predicate PredefinedKept(plan: ImportReorderPlan, original: map<nat, nat>) {
    forall k :: k in original ==> k < |plan.importOrder| && plan.importOrder[k] == Some(original[k])
  }

  /** Every current import, and no other number, has a final position, which holds it. */
  ghost predicate EveryImportPlaced(plan: ImportReorderPlan, current: nat) {
    && (forall c: nat :: c in plan.importRemap <==> c < current)
    && (forall c ::
        c in plan.importRemap ==>
        plan.importRemap[c] < |plan.importOrder| && plan.importOrder[plan.importRemap[c]] == Some(c))
  }

  /** A slot that is not predefined holds an import that no slot is predefined for, and is its only position. */
  ghost predicate OthersOnce(plan: ImportReorderPlan, original: map<nat, nat>) {
    forall i, c :: 0 <= i < |plan.importOrder| && plan.importOrder[i] == Some(c) && i !in original ==>
      c !in original.Values && c in plan.importRemap && plan.importRemap[c] == i
  }

  /** A hole remains only when nothing had to be appended to the zen region. */
  ghost predicate HolesOnlyWithoutAppending(plan: ImportReorderPlan, zenCount: nat) {
    forall i :: 0 <= i < |plan.importOrder| && plan.importOrder[i].None? ==> |plan.importOrder| == zenCount
  }

  /** What the plan has to achieve. */
  ghost predicate PlanValid(plan: ImportReorderPlan, current: nat, zenCount: nat, original: map<nat, nat>) {
    && |plan.importOrder|
      == (if current + Duplicates(original) > zenCount then current + Duplicates(original) else zenCount)
    && PredefinedKept(plan, original)
    && EveryImportPlaced(plan, current)
    && OthersOnce(plan, original)
    && HolesOnlyWithoutAppending(plan, zenCount)
  }

  /** Original imports and unplaced imports are different ones. */
  ghost predicate Split(original: map<nat, nat>, unplaced: seq<nat>, current: nat) {
    && Distinct(unplaced)
    && (forall c: nat :: c in unplaced <==> c < current && c !in original.Values)
    && (forall k :: k in original ==> original[k] < current)
  }

  /** Slots below `n` that have no original import. */
  ghost function Free(original: map<nat, nat>, n: nat): nat {
    if n == 0 then 0 else Free(original, n - 1) + if n - 1 in original then 0 else 1
  }

  /** What a final position holds: its original import, else the next unplaced one, else nothing. */
  ghost function SlotAt(original: map<nat, nat>, unplaced: seq<nat>, n: nat): Option<nat> {
    if n in original then Some(original[n])
    else if Free(original, n) < |unplaced| then Some(unplaced[Free(original, n)])
    else None
  }

  ghost predicate Filled(order: seq<Option<nat>>, original: map<nat, nat>, unplaced: seq<nat>) {
    forall i :: 0 <= i < |order| ==> order[i] == SlotAt(original, unplaced, i)
  }

  /** The remap sends each import handed out so far to a position that holds it. */
  ghost predicate Remapped(remap: map<nat, nat>, original: map<nat, nat>, unplaced: seq<nat>, n: nat) {
    && (forall c :: c in remap ==> remap[c] < n && SlotAt(original, unplaced, remap[c]) == Some(c))
    && (forall i :: 0 <= i < n && SlotAt(original, unplaced, i).Some? ==> SlotAt(original, unplaced, i).value in remap)
  }

  lemma {:induction false} FreeMonotone(original: map<nat, nat>, i: nat, j: nat)
    requires i <= j
    ensures Free(original, i) <= Free(original, j)
    ensures i < j && i !in original ==> Free(original, i) < Free(original, j)
    decreases j
  {
    if i < j {
      FreeMonotone(original, i, j - 1);
    }
  }

  lemma {:induction false} FreeCount(original: map<nat, nat>, n: nat)
    ensures Free(original, n) + CountBelow(original.Keys, n) == n
  {
    if n > 0 {
      FreeCount(original, n - 1);
    }
  }

  /** Beyond the zen region every position is free. */
  lemma {:induction false} FreeBeyond(original: map<nat, nat>, zenCount: nat, n: nat)
    requires zenCount <= n && forall k :: k in original ==> k < zenCount
    ensures Free(original, n) == n - |original|
    decreases n
  {
    if n == zenCount {
      FreeCount(original, n);
      CountBelowSize(original.Keys, n);
    } else {
      FreeBeyond(original, zenCount, n - 1);
    }
  }

  /** Every unplaced import gets exactly one position. */
  lemma {:induction false} UnplacedReached(original: map<nat, nat>, unplaced: seq<nat>, r: nat, n: nat) returns (i: nat)
    requires r < |unplaced| && r < Free(original, n)
    ensures i < n && i !in original && Free(original, i) == r && SlotAt(original, unplaced, i) == Some(unplaced[r])
  {
    if n - 1 !in original && Free(original, n - 1) == r {
      i := n - 1;
    } else {
      i := UnplacedReached(original, unplaced, r, n - 1);
    }
  }

  /** Imports without an original position, collected lazily by the source and here at once. */
  method RemainingImports(current: nat, placed: set<nat>) returns (r: seq<nat>)
    ensures r == Unplaced(placed, current)
  {
    r := [];
    for c := 0 to current
      invariant r == Unplaced(placed, c)
    {
      if c !in placed {
        r := r + [c];
      }
    }
  }

  function Min(a: int, b: int): int { if a <= b then a else b }

  lemma {:induction false} RemapExtends(remap: map<nat, nat>, original: map<nat, nat>, unplaced: seq<nat>, n: nat)
    requires Remapped(remap, original, unplaced, n)
    ensures SlotAt(original, unplaced, n).None? ==> Remapped(remap, original, unplaced, n + 1)
    ensures SlotAt(original, unplaced, n).Some? ==>
      Remapped(remap[SlotAt(original, unplaced, n).value := n], original, unplaced, n + 1)
  {
  }

  /** The zen region: original imports where they were, unplaced ones in the other slots, then holes. */
  method FillZenRegion(zenCount: nat, original: map<nat, nat>, remaining: seq<nat>)
    returns (order: seq<Option<nat>>, remap: map<nat, nat>, used: nat)
    ensures |order| == zenCount && Filled(order, original, remaining) && Remapped(remap, original, remaining, zenCount)
    ensures used == Min(Free(original, zenCount), |remaining|)
  {
    order, remap, used := [], map[], 0;
    for n := 0 to zenCount
      invariant |order| == n && Filled(order, original, remaining) && Remapped(remap, original, remaining, n)
      invariant used == Min(Free(original, n), |remaining|)
    {
      RemapExtends(remap, original, remaining, n);
      if n in original {
        remap := remap[original[n] := n];
        order := order + [Some(original[n])];
      } else if used < |remaining| {
        remap := remap[remaining[used] := n];
        order := order + [Some(remaining[used])];
        used := used + 1;
      } else {
        order := order + [None];
      }
      assert Free(original, n + 1) == Free(original, n) + if n in original then 0 else 1;
    }
  }

  lemma {:induction false} AppendedSlot(original: map<nat, nat>, unplaced: seq<nat>, zenCount: nat, used: nat, k: nat)
    requires forall i :: i in original ==> i < zenCount
    requires used == Min(Free(original, zenCount), |unplaced|) && used <= k < |unplaced|
    ensures SlotAt(original, unplaced, zenCount + k - used) == Some(unplaced[k])
  {
    FreeBeyond(original, zenCount, zenCount);
    FreeBeyond(original, zenCount, zenCount + k - used);
  }

  /** Imports that found no free slot are appended. */
  method AppendRemaining(zenCount: nat, original: map<nat, nat>, remaining: seq<nat>,
                         order: seq<Option<nat>>, remap: map<nat, nat>, used: nat)
    returns (order': seq<Option<nat>>, remap': map<nat, nat>)
    requires forall k :: k in original ==> k < zenCount
    requires |order| == zenCount && Filled(order, original, remaining) && Remapped(remap, original, remaining, zenCount)
    requires used == Min(Free(original, zenCount), |remaining|)
    ensures |order'| == zenCount + |remaining| - used
    ensures Filled(order', original, remaining) && Remapped(remap', original, remaining, |order'|)
  {
    order', remap' := order, remap;
    for k := used to |remaining|
      invariant |order'| == zenCount + k - used
      invariant Filled(order', original, remaining) && Remapped(remap', original, remaining, |order'|)
    {
      AppendedSlot(original, remaining, zenCount, used, k);
      RemapExtends(remap', original, remaining, |order'|);
      remap' := remap'[remaining[k] := |order'|];
      order' := order' + [Some(remaining[k])];
    }
  }

  lemma {:induction false} EveryImportRemapped(order: seq<Option<nat>>, remap: map<nat, nat>, original: map<nat, nat>,
                                               unplaced: seq<nat>, current: nat, zenCount: nat, c: nat)
    requires Split(original, unplaced, current) && PositionsValid(current, zenCount, original)
    requires Filled(order, original, unplaced) && Remapped(remap, original, unplaced, |order|)
    requires zenCount <= |order| && |unplaced| <= Free(original, |order|)
    ensures c in remap <==> c < current
  {
    if c in remap {
      var i := remap[c];
      if i !in original {
        assert unplaced[Free(original, i)] in unplaced;
      }
    }
    if c < current && c in original.Values {
      var k :| k in original && original[k] == c;
      assert SlotAt(original, unplaced, k) == Some(c);
    } else if c < current {
      assert c in unplaced;
      var r :| 0 <= r < |unplaced| && unplaced[r] == c;
      var i := UnplacedReached(original, unplaced, r, |order|);
    }
  }

  lemma {:induction false} UnpredefinedSlot(remap: map<nat, nat>, original: map<nat, nat>, unplaced: seq<nat>,
                                            current: nat, n: nat, i: nat, c: nat)
    requires Split(original, unplaced, current) && Remapped(remap, original, unplaced, n)
    requires i < n && i !in original && SlotAt(original, unplaced, i) == Some(c)
    ensures c < current && c !in original.Values && c in remap && remap[c] == i
  {
    assert unplaced[Free(original, i)] in unplaced;
    var j := remap[c];
    if j < i {
      FreeMonotone(original, j, i);
    } else if i < j {
      FreeMonotone(original, i, j);
    }
  }

  lemma {:induction false} AllImportsPlaced(order: seq<Option<nat>>, remap: map<nat, nat>, original: map<nat, nat>,
                                            unplaced: seq<nat>, current: nat, zenCount: nat)
    requires Split(original, unplaced, current) && PositionsValid(current, zenCount, original)
    requires Filled(order, original, unplaced) && Remapped(remap, original, unplaced, |order|)
    requires zenCount <= |order| && |unplaced| <= Free(original, |order|)
    ensures EveryImportPlaced(ImportReorderPlan(order, remap), current)
  {
    forall c: nat ensures c in remap <==> c < current {
      EveryImportRemapped(order, remap, original, unplaced, current, zenCount, c);
    }
  }

  lemma {:induction false} OthersPlacedOnce(order: seq<Option<nat>>, remap: map<nat, nat>, original: map<nat, nat>,
                                            unplaced: seq<nat>, current: nat)
    requires Split(original, unplaced, current)
    requires Filled(order, original, unplaced) && Remapped(remap, original, unplaced, |order|)
    ensures OthersOnce(ImportReorderPlan(order, remap), original)
  {
    forall i, c | 0 <= i < |order| && order[i] == Some(c) && i !in original
      ensures c !in original.Values && c in remap && remap[c] == i
    {
      UnpredefinedSlot(remap, original, unplaced, current, |order|, i, c);
    }
  }

  lemma {:induction false} PredefinedSlotsKept(order: seq<Option<nat>>, remap: map<nat, nat>, original: map<nat, nat>,
                                               unplaced: seq<nat>, current: nat, zenCount: nat)
    requires PositionsValid(current, zenCount, original) && Filled(order, original, unplaced) && zenCount <= |order|
    ensures PredefinedKept(ImportReorderPlan(order, remap), original)
  {
  }

  /** All imports placed means the plan is what it should be. */
  lemma {:induction false} CompletePlan(order: seq<Option<nat>>, remap: map<nat, nat>, original: map<nat, nat>,
                                        unplaced: seq<nat>, current: nat, zenCount: nat)
    requires Split(original, unplaced, current) && PositionsValid(current, zenCount, original)
    requires Filled(order, original, unplaced) && Remapped(remap, original, unplaced, |order|)
    requires |order| == zenCount + |unplaced| - Min(Free(original, zenCount), |unplaced|)
    requires |unplaced| + |original.Values| == current
    ensures PlanValid(ImportReorderPlan(order, remap), current, zenCount, original)
  {
    FreeBeyond(original, zenCount, zenCount);
    FreeBeyond(original, zenCount, |order|);
    assert |order| == if current + Duplicates(original) > zenCount then current + Duplicates(original) else zenCount;
    PredefinedSlotsKept(order, remap, original, unplaced, current, zenCount);
    AllImportsPlaced(order, remap, original, unplaced, current, zenCount);
    OthersPlacedOnce(order, remap, original, unplaced, current);
    HolesImplyNoAppending(order, remap, original, unplaced, zenCount);
  }

  lemma {:induction false} HolesImplyNoAppending(order: seq<Option<nat>>, remap: map<nat, nat>,
                                                 original: map<nat, nat>, unplaced: seq<nat>, zenCount: nat)
    requires forall k :: k in original ==> k < zenCount
    requires Filled(order, original, unplaced)
    requires |order| == zenCount + |unplaced| - Min(Free(original, zenCount), |unplaced|)
    ensures HolesOnlyWithoutAppending(ImportReorderPlan(order, remap), zenCount)
  {
    forall i | 0 <= i < |order| && order[i].None? ensures |order| == zenCount {
      NoHoleWhenAppended(original, unplaced, zenCount, |order|, i);
    }
  }

  lemma {:induction false} NoHoleWhenAppended(original: map<nat, nat>, unplaced: seq<nat>, zenCount: nat, n: nat,
                                              i: nat)
    requires forall k :: k in original ==> k < zenCount
    requires n == zenCount + |unplaced| - Min(Free(original, zenCount), |unplaced|)
    requires i < n && SlotAt(original, unplaced, i).None?
    ensures n == zenCount
  {
    FreeBeyond(original, zenCount, zenCount);
    FreeBeyond(original, zenCount, n);
    FreeMonotone(original, i, n);
  }

  /**
   * `build_import_reorder_plan`. It succeeds exactly on positions inside the two maps whose total fits a machine
   * word; the check that every import was preserved never fails.
   */
  method BuildImportReorderPlan(current: nat, zenCount: nat, original: map<nat, nat>)
    returns (r: Result<ImportReorderPlan>)
    ensures r.Success? <==> PositionsValid(current, zenCount, original) && current + Duplicates(original) <= USIZE_MAX
    ensures r.Success? ==> PlanValid(r.value, current, zenCount, original)
  {
    var placed := original.Values;
    if !PositionsValid(current, zenCount, original) {
      return Failure("Import position is outside the import map");
    }
    if current + Duplicates(original) > USIZE_MAX {
      return Failure("Import map size overflow while rebuilding Zen import positions");
    }
    var remaining := RemainingImports(current, placed);
    UnplacedExact(placed, current);
    var order, remap, used := FillZenRegion(zenCount, original, remaining);
    order, remap := AppendRemaining(zenCount, original, remaining, order, remap, used);
    CountBelowSize(placed, current);
    CompletePlan(order, remap, original, remaining, current, zenCount);
    RemapIsComplete(remap, current);
    if |remap| != current {
      return Failure("Failed to preserve every temporary import while rebuilding the import map");
    }
    r := Success(ImportReorderPlan(order, remap));
  }

  lemma {:induction false} RemapIsComplete(remap: map<nat, nat>, current: nat)
    requires forall c: nat :: c in remap <==> c < current
    ensures |remap| == current
  {
    CountBelowSize(remap.Keys, current);
    AllCounted(remap.Keys, current);
  }

  lemma {:induction false} AllCounted(s: set<nat>, n: nat)
    requires forall c: nat :: c < n ==> c in s
    ensures CountBelow(s, n) == n
  {
    if n > 0 {
      AllCounted(s, n - 1);
    }
  }
}
