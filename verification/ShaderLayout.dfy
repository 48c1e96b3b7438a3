/** Laying out shader groups: packed entries, prefix-sum offsets and index slices. */
module ShaderLayout {
  import opened Package
  import opened Bytes
  import opened ShaderGroups
  import opened ShaderPartition
  import opened ShaderSplit
  import opened ShaderPacking

  // ---- FIoStoreShaderCodeEntry ----

  const FREQUENCY_VALUES: nat := 16
  const FIELD_VALUES: nat := 0x4000_0000

  /** The fields take disjoint bits of one word, so masking is a remainder and joining is a sum. */
  function PackEntry(groupIndex: nat, offsetInGroup: nat, frequency: nat): nat {
    frequency % FREQUENCY_VALUES + groupIndex % FIELD_VALUES * FREQUENCY_VALUES
      + offsetInGroup % FIELD_VALUES * (FREQUENCY_VALUES * FIELD_VALUES)
  }

  function Frequency(packed: nat): nat { packed % FREQUENCY_VALUES }

  function GroupIndex(packed: nat): nat { packed / FREQUENCY_VALUES % FIELD_VALUES }

  function OffsetInGroup(packed: nat): nat { packed / (FREQUENCY_VALUES * FIELD_VALUES) % FIELD_VALUES }

  /** Each field keeps its low bits, and the word has 64 bits. */
  lemma {:induction false} PackedEntryHolds(groupIndex: nat, offsetInGroup: nat, frequency: nat)
    ensures var p := PackEntry(groupIndex, offsetInGroup, frequency);
      && Frequency(p) == frequency % FREQUENCY_VALUES
      && GroupIndex(p) == groupIndex % FIELD_VALUES
      && OffsetInGroup(p) == offsetInGroup % FIELD_VALUES
      && p < 0x1_0000_0000_0000_0000
  {
    var f, g, o := frequency % FREQUENCY_VALUES, groupIndex % FIELD_VALUES, offsetInGroup % FIELD_VALUES;
    var p := f + g * FREQUENCY_VALUES + o * (FREQUENCY_VALUES * FIELD_VALUES);
    DivisionUnique(p, FREQUENCY_VALUES, g + o * FIELD_VALUES, f);
    DivisionUnique(g + o * FIELD_VALUES, FIELD_VALUES, o, g);
    DivisionUnique(p, FREQUENCY_VALUES * FIELD_VALUES, o, f + g * FREQUENCY_VALUES);
    DivisionUnique(o, FIELD_VALUES, 0, o);
  }

  // ---- Index slices ----

  /** The indices have the group as a slice at the offset. */
  ghost predicate SliceAt(indices: seq<nat>, offset: nat, g: seq<nat>) {
    offset + |g| <= |indices| && indices[offset..offset + |g|] == g
  }

  lemma {:induction false} SliceStays(indices: seq<nat>, indices': seq<nat>, offset: nat, g: seq<nat>)
    requires SliceAt(indices, offset, g) && indices <= indices'
    ensures SliceAt(indices', offset, g)
  {
    assert indices' == indices + indices'[|indices|..];
  }

  /** The test of one candidate: the first index, then the rest. */
  method MatchesAt(indices: seq<nat>, offset: nat, g: seq<nat>) returns (found: bool)
    requires g != [] && offset + |g| <= |indices|
    ensures found <==> SliceAt(indices, offset, g)
  {
    if indices[offset] != g[0] {
      assert indices[offset..offset + |g|][0] != g[0];
      return false;
    }
    found := true;
    for i := 1 to |g|
      invariant found <==> forall j :: 0 <= j < i ==> indices[offset + j] == g[j]
    {
      found := found && indices[offset + i] == g[i];
    }
    if !found {
      var j :| 0 <= j < |g| && indices[offset + j] != g[j];
      assert indices[offset..offset + |g|][j] != g[j];
    }
  }

  /** The indices with the group as a slice: unchanged if they have it. */
  ghost function FoundOrAdded(indices: seq<nat>, g: seq<nat>): seq<nat> {
    if exists k: nat :: SliceAt(indices, k, g) then indices else indices + g
  }

  /** `find_or_add_sequence_in_shader_indices`: the first slice that is the group, or the group appended. */
  method FindOrAdd(indices: seq<nat>, g: seq<nat>) returns (offset: nat, indices': seq<nat>)
    requires g != [] && |g| <= |indices|
    ensures SliceAt(indices', offset, g) && indices' == FoundOrAdded(indices, g)
    ensures forall k: nat :: SliceAt(indices, k, g) ==> offset <= k
    ensures (forall k: nat :: !SliceAt(indices, k, g)) ==> offset == |indices|
  {
    for k := 0 to |indices| - |g| + 1
      invariant forall j: nat :: j < k ==> !SliceAt(indices, j, g)
    {
      var found := MatchesAt(indices, k, g);
      if found {
        return k, indices;
      }
    }
    assert (indices + g)[|indices|..|indices| + |g|] == g;
    return |indices|, indices + g;
  }

  // ---- The header ----

  /** `FIoStoreShaderGroupEntry`. */
  datatype GroupEntry = GroupEntry(indicesOffset: nat, count: nat, uncompressedSize: nat, compressedSize: nat)

  /** `FIoStoreShaderCodeArchiveHeader` without hashes and chunk ids. */
  datatype ArchiveHeader = ArchiveHeader(shaderEntries: seq<nat>, groupEntries: seq<GroupEntry>, indices: seq<nat>)

  /** Size of the first `i` shaders of a group: the offset of the next one. */
  ghost function PrefixSize(lib: Library, g: seq<nat>, i: nat): nat
    requires i <= |g|
  {
    if i == 0 then 0 else PrefixSize(lib, g, i - 1) + lib.Size(g[i - 1])
  }

  lemma {:induction false} PrefixSizeIsLoad(lib: Library, g: seq<nat>, i: nat)
    requires i <= |g|
    ensures PrefixSize(lib, g, i) == Load(lib, g[..i])
  {
    if i > 0 {
      PrefixSizeIsLoad(lib, g, i - 1);
      LoadAppend(lib, g[..i - 1], g[i - 1]);
      assert g[..i] == g[..i - 1] + [g[i - 1]];
    }
  }

  /** The shaders of a group are shaders of the library. */
  ghost predicate InLibrary(lib: Library, g: seq<nat>) {
    forall s :: s in g ==> s < |lib.entries|
  }

  /** The entries of the first `n` shaders of group `k` say where they are. */
  ghost predicate EntriesFor(lib: Library, entries: seq<nat>, k: nat, g: seq<nat>, n: nat)
    requires n <= |g|
  {
    forall i :: 0 <= i < n ==> EntryFor(lib, entries, k, g, i)
  }

  ghost predicate EntryFor(lib: Library, entries: seq<nat>, k: nat, g: seq<nat>, i: nat)
    requires i < |g|
  {
    g[i] < |entries| && g[i] < |lib.entries| &&
      entries[g[i]] == PackEntry(k, PrefixSize(lib, g, i), lib.entries[g[i]].frequency)
  }

  lemma {:induction false} EntryStays(lib: Library, entries: seq<nat>, entries': seq<nat>, k: nat, g: seq<nat>, i: nat)
    requires i < |g| && EntryFor(lib, entries, k, g, i) && |entries'| == |entries| && entries'[g[i]] == entries[g[i]]
    ensures EntryFor(lib, entries', k, g, i)
  {
  }

  ghost predicate GroupEntryFor(lib: Library, entry: GroupEntry, indices: seq<nat>, g: seq<nat>) {
    && entry.count == |g| && entry.uncompressedSize == PrefixSize(lib, g, |g|)
    && SliceAt(indices, entry.indicesOffset, g)
  }

  /** The first `n` groups are laid out. */
  ghost predicate LaidOut(lib: Library, groups: seq<seq<nat>>, header: ArchiveHeader, n: nat)
    requires n <= |groups|
  {
    && |header.shaderEntries| == |lib.entries| && lib.indices <= header.indices && |header.groupEntries| == n
    && (forall k :: 0 <= k < n ==> EntriesFor(lib, header.shaderEntries, k, groups[k], |groups[k]|))
    && (forall k :: 0 <= k < n ==> GroupEntryFor(lib, header.groupEntries[k], header.indices, groups[k]))
    && (forall k :: 0 <= k < n ==> header.groupEntries[k].compressedSize == 0)
  }

  lemma {:induction false} EntryPlaced(lib: Library, entries: seq<nat>, k: nat, g: seq<nat>, i: nat)
    requires i < |g| && g[i] < |entries| && g[i] < |lib.entries| && Distinct(g) && EntriesFor(lib, entries, k, g, i)
    ensures EntriesFor(lib, entries[g[i] := PackEntry(k, PrefixSize(lib, g, i), lib.entries[g[i]].frequency)], k, g,
                       i + 1)
  {
    var entries' := entries[g[i] := PackEntry(k, PrefixSize(lib, g, i), lib.entries[g[i]].frequency)];
    forall j: nat | j < i + 1 ensures EntryFor(lib, entries', k, g, j) {
      if j < i {
        EntryStays(lib, entries, entries', k, g, j);
      }
    }
  }

  /** Fills in the entries of a group's shaders. */
  method PlaceShaders(lib: Library, entries: seq<nat>, k: nat, g: seq<nat>) returns (entries': seq<nat>, size: nat)
    requires InLibrary(lib, g) && |entries| == |lib.entries| && Distinct(g)
    ensures |entries'| == |entries| && EntriesFor(lib, entries', k, g, |g|) && size == PrefixSize(lib, g, |g|)
    ensures forall s :: 0 <= s < |entries| && s !in g ==> entries'[s] == entries[s]
  {
    entries', size := entries, 0;
    for i := 0 to |g|
      invariant |entries'| == |entries| && size == PrefixSize(lib, g, i) && EntriesFor(lib, entries', k, g, i)
      invariant forall s :: 0 <= s < |entries| && s !in g ==> entries'[s] == entries[s]
    {
      assert g[i] in g;
      EntryPlaced(lib, entries', k, g, i);
      entries' := entries'[g[i] := PackEntry(k, size, lib.entries[g[i]].frequency)];
      size := size + lib.entries[g[i]].uncompressedSize;
    }
  }

  /** The entries of an earlier group are not touched by a later one. */
  lemma {:induction false} EarlierEntriesStay(lib: Library, groups: seq<seq<nat>>, entries: seq<nat>,
                                              entries': seq<nat>, k: nat, n: nat)
    requires k < n < |groups| && Disjoint(groups) && |entries'| == |entries|
    requires EntriesFor(lib, entries, k, groups[k], |groups[k]|)
    requires forall s :: 0 <= s < |entries| && s !in groups[n] ==> entries'[s] == entries[s]
    ensures EntriesFor(lib, entries', k, groups[k], |groups[k]|)
  {
    forall i: nat | i < |groups[k]| ensures EntryFor(lib, entries', k, groups[k], i) {
      assert EntryFor(lib, entries, k, groups[k], i);
      assert groups[k][i] !in groups[n];
      EntryStays(lib, entries, entries', k, groups[k], i);
    }
  }

  lemma {:induction false} GroupDistinct(groups: seq<seq<nat>>, k: nat)
    requires Disjoint(groups) && k < |groups|
    ensures Distinct(groups[k])
  {
  }

  /** One group more. */
  method LayOutGroup(lib: Library, groups: seq<seq<nat>>, n: nat, header: ArchiveHeader)
    returns (header': ArchiveHeader)
    requires n < |groups| && Disjoint(groups) && InLibrary(lib, groups[n]) && LaidOut(lib, groups, header, n)
    requires groups[n] != [] && |groups[n]| <= |header.indices|
    ensures LaidOut(lib, groups, header', n + 1) && header'.indices == FoundOrAdded(header.indices, groups[n])
  {
    GroupDistinct(groups, n);
    var entries, size := PlaceShaders(lib, header.shaderEntries, n, groups[n]);
    var offset, indices := FindOrAdd(header.indices, groups[n]);
    forall k | 0 <= k < n ensures EntriesFor(lib, entries, k, groups[k], |groups[k]|) {
      EarlierEntriesStay(lib, groups, header.shaderEntries, entries, k, n);
    }
    forall k | 0 <= k < n ensures GroupEntryFor(lib, header.groupEntries[k], indices, groups[k]) {
      SliceStays(header.indices, indices, header.groupEntries[k].indicesOffset, groups[k]);
    }
    header' := ArchiveHeader(entries, header.groupEntries + [GroupEntry(offset, |groups[n]|, size, 0)], indices);
  }

  /** The indices once the first `n` groups have been found or added. */
  ghost function IndicesAfter(indices: seq<nat>, groups: seq<seq<nat>>, n: nat): seq<nat>
    requires n <= |groups|
  {
    if n == 0 then indices else FoundOrAdded(IndicesAfter(indices, groups, n - 1), groups[n - 1])
  }

  /** None of the first `n` groups is empty or longer than the indices in which it is searched. */
  ghost predicate FitsUpTo(indices: seq<nat>, groups: seq<seq<nat>>, n: nat)
    requires n <= |groups|
  {
    forall k :: 0 <= k < n ==> FitsAt(indices, groups, k)
  }

  ghost predicate FitsAt(indices: seq<nat>, groups: seq<seq<nat>>, k: nat)
    requires k < |groups|
  {
    groups[k] != [] && |groups[k]| <= |IndicesAfter(indices, groups, k)|
  }

  lemma {:induction false} FitsStep(indices: seq<nat>, groups: seq<seq<nat>>, n: nat)
    requires n < |groups| && FitsUpTo(indices, groups, n)
    ensures FitsUpTo(indices, groups, n + 1) <==> FitsAt(indices, groups, n)
    ensures !FitsAt(indices, groups, n) ==> !LayoutFits(indices, groups)
  {
  }

  ghost predicate LayoutFits(indices: seq<nat>, groups: seq<seq<nat>>) {
    FitsUpTo(indices, groups, |groups|)
  }

  /**
   * The layout loop. It fails exactly on an empty group, which has no first shader, and on a group longer than the
   * shader indices at that point, where the search for the group would underflow.
   */
  method BuildHeader(lib: Library, groups: seq<seq<nat>>) returns (r: Result<ArchiveHeader>)
    requires Disjoint(groups) && forall k :: 0 <= k < |groups| ==> InLibrary(lib, groups[k])
    ensures r.Success? ==>
      LaidOut(lib, groups, r.value, |groups|) && r.value.indices == IndicesAfter(lib.indices, groups, |groups|)
    ensures r.Success? <==> LayoutFits(lib.indices, groups)
  {
    var header := ArchiveHeader(seq(|lib.entries|, _ => 0), [], lib.indices);
    for n := 0 to |groups|
      invariant LaidOutSoFar(lib, groups, header, n)
    {
      var next := LayOutNext(lib, groups, n, header);
      if next.Failure? {
        return next;
      }
      header := next.value;
    }
    r := Success(header);
  }

  ghost predicate LaidOutSoFar(lib: Library, groups: seq<seq<nat>>, header: ArchiveHeader, n: nat)
    requires n <= |groups|
  {
    LaidOut(lib, groups, header, n) && header.indices == IndicesAfter(lib.indices, groups, n) &&
      FitsUpTo(lib.indices, groups, n)
  }

  /** The next group, if it can be searched for. */
  method LayOutNext(lib: Library, groups: seq<seq<nat>>, n: nat, header: ArchiveHeader)
    returns (next: Result<ArchiveHeader>)
    requires n < |groups| && Disjoint(groups) && InLibrary(lib, groups[n]) && LaidOutSoFar(lib, groups, header, n)
    ensures next.Success? ==> LaidOutSoFar(lib, groups, next.value, n + 1)
    ensures next.Failure? ==> !LayoutFits(lib.indices, groups)
  {
    FitsStep(lib.indices, groups, n);
    if groups[n] == [] {
      return Failure("index out of bounds");
    }
    if |groups[n]| > |header.indices| {
      return Failure("attempt to subtract with overflow");
    }
    var header' := LayOutGroup(lib, groups, n, header);
    next := Success(header');
  }

  // ---- Libraries whose layout fits ----

  lemma {:induction false} IndicesGrow(indices: seq<nat>, groups: seq<seq<nat>>, n: nat)
    requires n <= |groups|
    ensures |indices| <= |IndicesAfter(indices, groups, n)|
  {
    if n > 0 {
      IndicesGrow(indices, groups, n - 1);
    }
  }

  /** No map names a shader that is not in the indices. */
  lemma {:induction false} UnlistedIsUnnamed(lib: Library, s: nat, m: nat, i: nat)
    requires lib.Valid() && (if m < |lib.maps| then i <= lib.maps[m].count else m == |lib.maps| && i == 0)
    requires s !in lib.indices
    ensures MapsOf(lib, s, m, i) == []
    decreases m, i
  {
    if i > 0 {
      assert lib.maps[m] in lib.maps;
      UnlistedIsUnnamed(lib, s, m, i - 1);
      assert lib.indices[lib.maps[m].indicesOffset + i - 1] in lib.indices;
    } else if m > 0 {
      UnlistedIsUnnamed(lib, s, m - 1, lib.maps[m - 1].count);
    }
  }

  /** Those of the first `n` shaders that no map names. */
  ghost function Unnamed(lib: Library, n: nat): (list: seq<nat>)
    requires lib.Valid()
    ensures forall s: nat :: s < n && References(lib, s) == [] ==> s in list
  {
    if n == 0 then [] else Unnamed(lib, n - 1) + if References(lib, n - 1) == [] then [n - 1] else []
  }

  /** Every shader occurs in the library's indices, or those that no map names are no more than there are indices. */
  ghost predicate FewUnnamed(lib: Library)
    requires lib.Valid()
  {
    (forall s: nat :: s < |lib.entries| ==> s in lib.indices) || |Unnamed(lib, |lib.entries|)| <= |lib.indices|
  }

  /** Then groups of shaders with the same maps can always be laid out, unless one is empty. */
  lemma {:induction false} FewUnnamedFits(lib: Library, groups: seq<seq<nat>>)
    requires lib.Valid() && FewUnnamed(lib) && Disjoint(groups)
    requires forall g :: g in groups ==> InLibrary(lib, g) && SameReferences(lib, g)
    ensures LayoutFits(lib.indices, groups) <==> NoEmptyGroup(groups)
  {
    forall n: nat | n < |groups| ensures FitsAt(lib.indices, groups, n) <==> groups[n] != [] {
      assert groups[n] in groups;
      GroupDistinct(groups, n);
      ListedOrUnnamed(lib, groups[n]);
      IndicesGrow(lib.indices, groups, n);
    }
    assert forall n :: 0 <= n < |groups| ==> groups[n] in groups;
  }

  lemma {:induction false} ListedOrUnnamed(lib: Library, g: seq<nat>)
    requires lib.Valid() && FewUnnamed(lib) && Distinct(g) && InLibrary(lib, g) && SameReferences(lib, g)
    ensures |g| <= |lib.indices|
  {
    if forall s :: s in g ==> s in lib.indices {
      DistinctFits(g, lib.indices);
    } else {
      var s :| s in g && s !in lib.indices;
      UnlistedIsUnnamed(lib, s, |lib.maps|, 0);
      forall t | t in g ensures t in Unnamed(lib, |lib.entries|) {
        assert References(lib, t) == References(lib, s);
      }
      DistinctFits(g, Unnamed(lib, |lib.entries|));
    }
  }

  /** A library that has shaders and no indices can never be laid out. */
  lemma {:induction false} NoIndicesNeverFits(lib: Library, groups: seq<seq<nat>>)
    requires lib.indices == [] && lib.entries != [] && AllOf(groups) == multiset(Numbers(|lib.entries|))
    ensures !LayoutFits(lib.indices, groups)
  {
    OnePlace(groups, |lib.entries|, 0);
    assert !FitsAt(lib.indices, groups, 0);
  }
}
