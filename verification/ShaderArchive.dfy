/** Writing shader groups as chunks, and getting the code of every shader back from offsets alone. */
module ShaderArchive {
  import opened Package
  import opened Bytes
  import opened Codecs
  import opened Sorting
  import opened ShaderGroups
  import opened ShaderLayout

  // ---- The code of a shader in the source library ----

  /** A shader's code: compressed in the library exactly when its two sizes differ. */
  function ShaderCode(codec: Codec, method_: nat, code: seq<byte>, e: CodeEntry): Option<seq<byte>> {
    if e.offset + e.size > |code| then None
    else if e.size == e.uncompressedSize then Some(code[e.offset..e.offset + e.size])
    else codec.decompress(method_, code[e.offset..e.offset + e.size], e.uncompressedSize)
  }

  /** The codes of all shaders, of the sizes that the library gives. */
  ghost predicate Codes(lib: Library, plain: seq<seq<byte>>) {
    |plain| == |lib.entries| && forall s :: 0 <= s < |plain| ==> |plain[s]| == lib.entries[s].uncompressedSize
  }

  ghost function PlainOf(plain: seq<seq<byte>>, s: nat): seq<byte> {
    if s < |plain| then plain[s] else []
  }

  /** The codes of the first `n` shaders of a group, one after the other. */
  ghost function GroupCode(plain: seq<seq<byte>>, g: seq<nat>, n: nat): seq<byte>
    requires n <= |g|
  {
    if n == 0 then [] else GroupCode(plain, g, n - 1) + PlainOf(plain, g[n - 1])
  }

  lemma {:induction false} GroupCodeLength(lib: Library, plain: seq<seq<byte>>, g: seq<nat>, n: nat)
    requires Codes(lib, plain) && n <= |g|
    ensures |GroupCode(plain, g, n)| == PrefixSize(lib, g, n)
  {
    if n > 0 {
      GroupCodeLength(lib, plain, g, n - 1);
    }
  }

  lemma {:induction false} SliceOfFront(front: seq<byte>, back: seq<byte>, from: nat, to: nat)
    requires from <= to <= |front|
    ensures (front + back)[from..to] == front[from..to]
  {
  }

  lemma {:induction false} SliceOfBack(front: seq<byte>, back: seq<byte>)
    ensures (front + back)[|front|..|front| + |back|] == back
  {
  }

  lemma {:induction false} CodeAtEnd(lib: Library, plain: seq<seq<byte>>, g: seq<nat>, i: nat)
    requires Codes(lib, plain) && i < |g|
    ensures PrefixSize(lib, g, i) <= PrefixSize(lib, g, i + 1) == |GroupCode(plain, g, i + 1)|
    ensures GroupCode(plain, g, i + 1)[PrefixSize(lib, g, i)..PrefixSize(lib, g, i + 1)] == PlainOf(plain, g[i])
  {
    GroupCodeLength(lib, plain, g, i);
    GroupCodeLength(lib, plain, g, i + 1);
    SliceOfBack(GroupCode(plain, g, i), PlainOf(plain, g[i]));
  }

  /** A shader's code is where the prefix sums say. */
  lemma {:induction false} CodeInGroup(lib: Library, plain: seq<seq<byte>>, g: seq<nat>, i: nat, n: nat)
    requires Codes(lib, plain) && i < n <= |g|
    ensures PrefixSize(lib, g, i) <= PrefixSize(lib, g, i + 1) <= |GroupCode(plain, g, n)|
    ensures GroupCode(plain, g, n)[PrefixSize(lib, g, i)..PrefixSize(lib, g, i + 1)] == PlainOf(plain, g[i])
  {
    CodeAtEnd(lib, plain, g, i);
    var from, to := PrefixSize(lib, g, i), PrefixSize(lib, g, i + 1);
    if i < n - 1 {
      CodeInGroup(lib, plain, g, i, n - 1);
      SliceOfFront(GroupCode(plain, g, n - 1), PlainOf(plain, g[n - 1]), from, to);
    }
  }

  // ---- Writing ----

  /** A chunk holds the group's code, and is raw exactly when its two sizes are equal. */
  ghost predicate StoresGroup(codec: Codec, method_: nat, entry: GroupEntry, chunk: seq<byte>, groupCode: seq<byte>) {
    && entry.uncompressedSize == |groupCode| && entry.compressedSize == |chunk|
    && (if entry.compressedSize == entry.uncompressedSize then chunk == groupCode
        else codec.decompress(method_, chunk, |groupCode|) == Some(groupCode))
  }

  /** Shaders fit the packed fields. */
  ghost predicate FitsFields(lib: Library, groups: seq<seq<nat>>) {
    |groups| <= FIELD_VALUES && forall k :: 0 <= k < |groups| ==> PrefixSize(lib, groups[k], |groups[k]|) < FIELD_VALUES
  }

  lemma {:induction false} PrefixSizeGrows(lib: Library, g: seq<nat>, i: nat, j: nat)
    requires i <= j <= |g|
    ensures PrefixSize(lib, g, i) <= PrefixSize(lib, g, j)
    decreases j
  {
    if i < j {
      PrefixSizeGrows(lib, g, i, j - 1);
    }
  }

  /** The entry of a laid-out shader reads back its group and offset. */
  lemma {:induction false} EntryReads(lib: Library, groups: seq<seq<nat>>, entries: seq<nat>, k: nat, i: nat)
    requires k < |groups| && i < |groups[k]| && FitsFields(lib, groups) &&
             EntriesFor(lib, entries, k, groups[k], |groups[k]|)
    ensures groups[k][i] < |entries| && GroupIndex(entries[groups[k][i]]) == k
    ensures OffsetInGroup(entries[groups[k][i]]) == PrefixSize(lib, groups[k], i)
  {
    assert EntryFor(lib, entries, k, groups[k], i);
    PrefixSizeGrows(lib, groups[k], i, |groups[k]|);
    PackedEntryHolds(k, PrefixSize(lib, groups[k], i), lib.entries[groups[k][i]].frequency);
    KeepsFieldValue(k);
    KeepsFieldValue(PrefixSize(lib, groups[k], i));
  }

  lemma {:induction false} KeepsFieldValue(v: nat)
    requires v < FIELD_VALUES
    ensures v % FIELD_VALUES == v
  {
  }

  /** The `i`-th index of group `k` and its entry give the `i`-th shader and its prefix sum. */
  ghost predicate PlaceFits(lib: Library, g: seq<nat>, header: ArchiveHeader, k: nat, i: nat)
    requires k < |header.groupEntries| && i < |g|
  {
    var at := header.groupEntries[k].indicesOffset + i;
    && at < |header.indices| && header.indices[at] == g[i] < |header.shaderEntries|
    && GroupIndex(header.shaderEntries[g[i]]) == k && OffsetInGroup(header.shaderEntries[g[i]]) == PrefixSize(lib, g, i)
  }

  ghost predicate PlacesFit(lib: Library, g: seq<nat>, header: ArchiveHeader, k: nat) {
    && k < |header.groupEntries| && header.groupEntries[k].count == |g|
    && forall i :: 0 <= i < |g| ==> PlaceFits(lib, g, header, k, i)
  }

  lemma {:induction false} LaidOutPlacesFit(lib: Library, groups: seq<seq<nat>>, header: ArchiveHeader, k: nat)
    requires k < |groups| && k < |header.groupEntries| && FitsFields(lib, groups)
    requires EntriesFor(lib, header.shaderEntries, k, groups[k], |groups[k]|)
    requires GroupEntryFor(lib, header.groupEntries[k], header.indices, groups[k])
    ensures PlacesFit(lib, groups[k], header, k)
  {
    var entry, g := header.groupEntries[k], groups[k];
    forall i | 0 <= i < |g| ensures PlaceFits(lib, g, header, k, i) {
      assert header.indices[entry.indicesOffset + i]
        == header.indices[entry.indicesOffset..entry.indicesOffset + |g|][i];
      EntryReads(lib, groups, header.shaderEntries, k, i);
    }
  }

  /** Codes of shaders, as far as the library has them. */
  ghost predicate CodesRead(codec: Codec, method_: nat, code: seq<byte>, lib: Library, plain: seq<seq<byte>>) {
    Codes(lib, plain) && forall s :: 0 <= s < |plain| ==> CodeRead(codec, method_, code, lib.entries[s], plain[s])
  }

  ghost predicate CodeRead(codec: Codec, method_: nat, code: seq<byte>, e: CodeEntry, plain: seq<byte>) {
    ShaderCode(codec, method_, code, e).Some? ==> ShaderCode(codec, method_, code, e) == Some(plain)
  }

  predicate HasCode(codec: Codec, method_: nat, code: seq<byte>, lib: Library, s: nat) {
    s < |lib.entries| && ShaderCode(codec, method_, code, lib.entries[s]).Some?
  }

  ghost predicate AllHaveCode(codec: Codec, method_: nat, code: seq<byte>, lib: Library, g: seq<nat>, n: nat)
    requires n <= |g|
  {
    forall i :: 0 <= i < n ==> HasCode(codec, method_, code, lib, g[i])
  }

  /** The library stores the shader compressed. */
  predicate Compressed(lib: Library, s: nat) {
    s < |lib.entries| && lib.entries[s].size != lib.entries[s].uncompressedSize
  }

  /** One of the first `n` shaders of a group is compressed. */
  ghost predicate AnyCompressed(lib: Library, g: seq<nat>, n: nat)
    requires n <= |g|
  {
    n > 0 && (AnyCompressed(lib, g, n - 1) || Compressed(lib, g[n - 1]))
  }

  /** The next shader of a group, appended if its code can be read and starts at the offset in its entry. */
  method CollectShader(codec: Codec, method_: nat, code: seq<byte>, lib: Library, header: ArchiveHeader, k: nat,
                       i: nat, buffer: seq<byte>, ghost g: seq<nat>, ghost plain: seq<seq<byte>>)
    returns (ok: bool, buffer': seq<byte>, compressed: bool)
    requires codec.Lawful() && InLibrary(lib, g) && PlacesFit(lib, g, header, k) &&
             CodesRead(codec, method_, code, lib, plain)
    requires i < |g| && buffer == GroupCode(plain, g, i)
    ensures ok <==> HasCode(codec, method_, code, lib, g[i])
    ensures ok ==> buffer' == GroupCode(plain, g, i + 1) && compressed == Compressed(lib, g[i])
  {
    assert PlaceFits(lib, g, header, k, i) && g[i] in g;
    var s := header.indices[header.groupEntries[k].indicesOffset + i];
    var bytes := ShaderCode(codec, method_, code, lib.entries[s]);
    assert CodeRead(codec, method_, code, lib.entries[s], plain[s]);
    if bytes.None? {
      return false, buffer, false;
    }
    GroupCodeLength(lib, plain, g, i);
    if |buffer| != OffsetInGroup(header.shaderEntries[s]) {
      assert false;
    }
    ok, buffer', compressed := true, buffer + bytes.value, lib.entries[s].size != lib.entries[s].uncompressedSize;
  }

  /** All codes of a group. The check of each offset never fails for a header laid out by prefix sums. */
  method CollectGroup(codec: Codec, method_: nat, code: seq<byte>, lib: Library, header: ArchiveHeader, k: nat,
                      ghost g: seq<nat>, ghost plain: seq<seq<byte>>)
    returns (ok: bool, buffer: seq<byte>, sawCompressed: bool)
    requires codec.Lawful() && InLibrary(lib, g) && PlacesFit(lib, g, header, k) &&
             CodesRead(codec, method_, code, lib, plain)
    ensures ok <==> AllHaveCode(codec, method_, code, lib, g, |g|)
    ensures ok ==> buffer == GroupCode(plain, g, |g|)
    ensures ok ==> (sawCompressed <==> AnyCompressed(lib, g, |g|))
  {
    ok, buffer, sawCompressed := true, [], false;
    for i := 0 to header.groupEntries[k].count
      invariant buffer == GroupCode(plain, g, i)
      invariant AllHaveCode(codec, method_, code, lib, g, i)
      invariant sawCompressed <==> AnyCompressed(lib, g, i)
    {
      var compressed;
      ok, buffer, compressed := CollectShader(codec, method_, code, lib, header, k, i, buffer, g, plain);
      if !ok {
        return;
      }
      sawCompressed := sawCompressed || compressed;
    }
  }

  /** The chunk holds what compression makes of the bytes exactly where a method is known and that is smaller. */
  ghost predicate ChunkOf(codec: Codec, method_: nat, known: bool, buffer: seq<byte>, chunk: seq<byte>) {
    var compressed := codec.compress(method_, buffer);
    chunk == if known && compressed.Some? && |compressed.value| < |buffer| then compressed.value else buffer
  }

  /** The group as it is stored: compressed only if a method is known and the result is smaller. */
  method CompressGroup(codec: Codec, method_: nat, known: bool, buffer: seq<byte>) returns (chunk: Option<seq<byte>>)
    requires codec.Lawful()
    ensures chunk.None? <==> known && codec.compress(method_, buffer).None?
    ensures chunk.Some? ==>
      chunk.value == buffer ||
      (|chunk.value| < |buffer| && codec.decompress(method_, chunk.value, |buffer|) == Some(buffer))
    ensures chunk.Some? ==> ChunkOf(codec, method_, known, buffer, chunk.value)
  {
    chunk := Some(buffer);
    if known {
      chunk := codec.compress(method_, buffer);
      if chunk.Some? && |chunk.value| >= |buffer| {
        chunk := Some(buffer);
      }
    }
  }

  /** The header with the compressed sizes filled in, and a chunk per group. */
  datatype Archive = Archive(header: ArchiveHeader, chunks: seq<seq<byte>>)

  /** The archive stores every group's code under the layout of the header. */
  ghost predicate Stores(codec: Codec, method_: nat, lib: Library, groups: seq<seq<nat>>, plain: seq<seq<byte>>,
                         archive: Archive, n: nat)
    requires n <= |groups|
  {
    && |archive.header.shaderEntries| == |lib.entries| && |archive.header.groupEntries| == |groups| &&
       |archive.chunks| == n
    && (forall k :: 0 <= k < |groups| ==> EntriesFor(lib, archive.header.shaderEntries, k, groups[k], |groups[k]|))
    && (forall k ::
        0 <= k < |groups| ==> GroupEntryFor(lib, archive.header.groupEntries[k], archive.header.indices, groups[k]))
    && (forall k :: 0 <= k < n ==>
          StoresGroup(codec, method_, archive.header.groupEntries[k], archive.chunks[k],
                      GroupCode(plain, groups[k], |groups[k]|)))
  }

  /** A chunk added, and its size written into the group's entry. */
  function WithChunk(archive: Archive, k: nat, chunk: seq<byte>): Archive
    requires k < |archive.header.groupEntries|
  {
    var entries := archive.header.groupEntries;
    Archive(archive.header.(groupEntries := entries[k := entries[k].(compressedSize := |chunk|)]),
            archive.chunks + [chunk])
  }

  lemma {:induction false} StoresOneMore(codec: Codec, method_: nat, lib: Library, groups: seq<seq<nat>>,
                                         plain: seq<seq<byte>>, archive: Archive, n: nat, chunk: seq<byte>)
    requires codec.Lawful() && n < |groups| && Stores(codec, method_, lib, groups, plain, archive, n) &&
             Codes(lib, plain)
    requires var buffer := GroupCode(plain, groups[n], |groups[n]|);
      chunk == buffer || (|chunk| < |buffer| && codec.decompress(method_, chunk, |buffer|) == Some(buffer))
    ensures Stores(codec, method_, lib, groups, plain, WithChunk(archive, n, chunk), n + 1)
  {
    GroupCodeLength(lib, plain, groups[n], |groups[n]|);
    var entries := archive.header.groupEntries;
    var entries' := entries[n := entries[n].(compressedSize := |chunk|)];
    assert GroupEntryFor(lib, entries[n], archive.header.indices, groups[n]);
    forall k | 0 <= k < |groups| ensures GroupEntryFor(lib, entries'[k], archive.header.indices, groups[k]) {
      assert GroupEntryFor(lib, entries[k], archive.header.indices, groups[k]);
    }
  }

  /** A compressed shader is in one of the first `n` groups, so the compression method is known. */
  ghost predicate MethodKnown(lib: Library, groups: seq<seq<nat>>, n: nat)
    requires n <= |groups|
  {
    exists k :: 0 <= k < n && AnyCompressed(lib, groups[k], |groups[k]|)
  }

  /** Group `k` can be written: its shaders have code, and it can be compressed once a compression method is known. */
  ghost predicate Writable(codec: Codec, method_: nat, code: seq<byte>, lib: Library, groups: seq<seq<nat>>,
                           plain: seq<seq<byte>>, k: nat)
    requires k < |groups|
  {
    && AllHaveCode(codec, method_, code, lib, groups[k], |groups[k]|)
    && (MethodKnown(lib, groups, k + 1) ==> codec.compress(method_, GroupCode(plain, groups[k], |groups[k]|)).Some?)
  }

  /** Group `k` is compressed, where that makes it smaller, once a compressed shader was seen in it or before it. */
  ghost predicate ChunkFormed(codec: Codec, method_: nat, lib: Library, groups: seq<seq<nat>>, plain: seq<seq<byte>>,
                              k: nat, chunk: seq<byte>)
    requires k < |groups|
  {
    ChunkOf(codec, method_, exists l :: 0 <= l <= k && AnyCompressed(lib, groups[l], |groups[l]|),
            GroupCode(plain, groups[k], |groups[k]|), chunk)
  }

  /** The chunk of group `k`, if it can be written. */
  method FormChunk(codec: Codec, method_: nat, code: seq<byte>, lib: Library, header: ArchiveHeader, k: nat,
                   known: bool, ghost groups: seq<seq<nat>>, ghost plain: seq<seq<byte>>)
    returns (chunk: Option<seq<byte>>, known': bool)
    requires codec.Lawful() && k < |groups| && InLibrary(lib, groups[k]) && PlacesFit(lib, groups[k], header, k)
    requires CodesRead(codec, method_, code, lib, plain) && (known <==> MethodKnown(lib, groups, k))
    ensures chunk.Some? <==> Writable(codec, method_, code, lib, groups, plain, k)
    ensures chunk.Some? ==> (known' <==> MethodKnown(lib, groups, k + 1))
    ensures var buffer := GroupCode(plain, groups[k], |groups[k]|);
      chunk.Some? ==>
        chunk.value == buffer ||
          (|chunk.value| < |buffer| && codec.decompress(method_, chunk.value, |buffer|) == Some(buffer))
    ensures chunk.Some? ==> ChunkFormed(codec, method_, lib, groups, plain, k, chunk.value)
  {
    var ok, buffer, sawCompressed := CollectGroup(codec, method_, code, lib, header, k, groups[k], plain);
    known' := known || sawCompressed;
    if !ok {
      return None, known';
    }
    chunk := CompressGroup(codec, method_, known', buffer);
  }

  /** The group loop of `write_io_store_library`, which succeeds exactly when every group can be written. */
  method WriteArchive(codec: Codec, method_: nat, code: seq<byte>, lib: Library, header: ArchiveHeader,
                      ghost groups: seq<seq<nat>>, ghost plain: seq<seq<byte>>)
    returns (r: Result<Archive>)
    requires codec.Lawful() && LaidOut(lib, groups, header, |groups|) && FitsFields(lib, groups)
    requires CodesRead(codec, method_, code, lib, plain) && forall k :: 0 <= k < |groups| ==> InLibrary(lib, groups[k])
    ensures r.Success? ==>
      Stores(codec, method_, lib, groups, plain, r.value, |groups|) && r.value.header.indices == header.indices
    ensures r.Success? ==> forall k :: 0 <= k < |groups| ==>
      ChunkFormed(codec, method_, lib, groups, plain, k, r.value.chunks[k])
    ensures r.Success? <==> forall k :: 0 <= k < |groups| ==> Writable(codec, method_, code, lib, groups, plain, k)
  {
    var known := false;
    var archive := Archive(header, []);
    for k := 0 to |header.groupEntries|
      invariant Stores(codec, method_, lib, groups, plain, archive, k) && archive.header.indices == header.indices
      invariant known <==> MethodKnown(lib, groups, k)
      invariant forall l :: 0 <= l < k ==> ChunkFormed(codec, method_, lib, groups, plain, l, archive.chunks[l])
      invariant forall l :: 0 <= l < k ==> Writable(codec, method_, code, lib, groups, plain, l)
    {
      LaidOutPlacesFit(lib, groups, header, k);
      var chunk;
      chunk, known := FormChunk(codec, method_, code, lib, header, k, known, groups, plain);
      if chunk.None? {
        return Failure("shader group cannot be written");
      }
      StoresOneMore(codec, method_, lib, groups, plain, archive, k, chunk.value);
      archive := WithChunk(archive, k, chunk.value);
    }
    r := Success(archive);
  }

  // ---- Reading ----

  /** A shader and its offset in its group. */
  datatype Place = Place(shader: nat, offset: nat)

  /** The places of a group's shaders, in order. */
  ghost function PlacesOf(lib: Library, g: seq<nat>): seq<Place> {
    seq(|g|, i requires 0 <= i < |g| => Place(g[i], PrefixSize(lib, g, i)))
  }

  /** Place `i` of group `k` names a shader of the archive that says it is in this group. */
  ghost predicate ClaimsGroup(header: ArchiveHeader, k: nat, i: nat)
    requires k < |header.groupEntries|
  {
    var at := header.groupEntries[k].indicesOffset + i;
    && at < |header.indices| && header.indices[at] < |header.shaderEntries|
    && GroupIndex(header.shaderEntries[header.indices[at]]) == k
  }

  /** One shader of a group with its offset; fails if it claims another group, or an index is out of range. */
  method ReadPlace(header: ArchiveHeader, k: nat, i: nat, ghost lib: Library, ghost g: seq<nat>)
    returns (r: Option<Place>)
    requires k < |header.groupEntries| && i < header.groupEntries[k].count
    ensures r.Some? ==> r.value.shader < |header.shaderEntries|
    ensures r.Some? <==> ClaimsGroup(header, k, i)
    ensures i < |g| && PlaceFits(lib, g, header, k, i) ==> r == Some(Place(g[i], PrefixSize(lib, g, i)))
  {
    var at := header.groupEntries[k].indicesOffset + i;
    if at >= |header.indices| {
      return None;
    }
    var s := header.indices[at];
    if s >= |header.shaderEntries| || GroupIndex(header.shaderEntries[s]) != k {
      return None;
    }
    r := Some(Place(s, OffsetInGroup(header.shaderEntries[s])));
  }

  /** All shaders of a group with their offsets. */
  method ReadPlaces(header: ArchiveHeader, k: nat, ghost lib: Library, ghost g: seq<nat>)
    returns (r: Option<seq<Place>>)
    requires k < |header.groupEntries|
    ensures r.Some? ==> forall j :: 0 <= j < |r.value| ==> r.value[j].shader < |header.shaderEntries|
    ensures r.Some? ==> |r.value| == header.groupEntries[k].count
    ensures r.Some? <==> forall j :: 0 <= j < header.groupEntries[k].count ==> ClaimsGroup(header, k, j)
    ensures PlacesFit(lib, g, header, k) ==> r == Some(PlacesOf(lib, g))
  {
    ghost var readable, all := PlacesFit(lib, g, header, k), PlacesOf(lib, g);
    var places: seq<Place> := [];
    for i := 0 to header.groupEntries[k].count
      invariant |places| == i && forall j :: 0 <= j < i ==> places[j].shader < |header.shaderEntries|
      invariant readable ==> i <= |all| && places == all[..i]
      invariant forall j :: 0 <= j < i ==> ClaimsGroup(header, k, j)
    {
      assert readable ==> PlaceFits(lib, g, header, k, i) && all[i] == Place(g[i], PrefixSize(lib, g, i));
      var place := ReadPlace(header, k, i, lib, g);
      if place.None? {
        return None;
      }
      places := places + [place.value];
    }
    r := Some(places);
    assert readable ==> all[..|all|] == all;
  }

  /** The group's bytes, decompressed if the chunk is smaller than them. */
  method GroupData(codec: Codec, method_: nat, entry: GroupEntry, chunk: seq<byte>, ghost groupCode: seq<byte>)
    returns (data: Option<seq<byte>>)
    ensures StoresGroup(codec, method_, entry, chunk, groupCode) ==> data == Some(groupCode)
  {
    data := Some(chunk);
    if entry.compressedSize != entry.uncompressedSize {
      data := codec.decompress(method_, chunk, entry.uncompressedSize);
      if data.Some? && |data.value| != entry.uncompressedSize {
        return None;
      }
    }
  }

  ghost predicate AscendingPlaces(places: seq<Place>) {
    forall i, j :: 0 <= i < j < |places| ==> places[i].offset <= places[j].offset
  }

  lemma {:induction false} PlacesAscend(lib: Library, g: seq<nat>)
    ensures AscendingPlaces(PlacesOf(lib, g))
  {
    forall i, j | 0 <= i < j < |g| ensures PrefixSize(lib, g, i) <= PrefixSize(lib, g, j) {
      PrefixSizeGrows(lib, g, i, j);
    }
  }

  /** Places sorted by offset, equal ones in their order; a group laid out by prefix sums is sorted already. */
  method SortPlaces(places: seq<Place>) returns (sorted: seq<Place>)
    ensures multiset(sorted) == multiset(places)
    ensures AscendingPlaces(places) ==> sorted == places
  {
    var le := (a: Place, b: Place) => a.offset <= b.offset;
    sorted := SortBy(places, le);
    assert AscendingPlaces(places) ==> Sorted(places, le);
  }

  /** What makes a group readable: fitting places, distinct shaders, and a chunk that stores their code. */
  ghost predicate GroupReadable(codec: Codec, method_: nat, lib: Library, plain: seq<seq<byte>>, g: seq<nat>,
                                header: ArchiveHeader, k: nat, chunk: seq<byte>)
  {
    && g != [] && InLibrary(lib, g) && Distinct(g) && Codes(lib, plain) && |header.shaderEntries| == |lib.entries|
    && PlacesFit(lib, g, header, k)
    && StoresGroup(codec, method_, header.groupEntries[k], chunk, GroupCode(plain, g, |g|))
  }

  /** End of the `i`-th place: where the next one starts, or the end of the group. */
  function PlaceEnd(places: seq<Place>, size: nat, i: nat): nat
    requires i < |places|
  {
    if i + 1 < |places| then places[i + 1].offset else size
  }

  lemma {:induction false} PlaceEndIsNext(lib: Library, g: seq<nat>, i: nat)
    requires i < |g|
    ensures PlaceEnd(PlacesOf(lib, g), PrefixSize(lib, g, |g|), i) == PrefixSize(lib, g, i + 1)
  {
  }

  /** Cuts the group's bytes at the sorted offsets. */
  method CutGroup(data: seq<byte>, places: seq<Place>, size: nat, codes: array<seq<byte>>, ghost lib: Library,
                  ghost g: seq<nat>, ghost plain: seq<seq<byte>>)
    returns (ok: bool)
    requires forall j :: 0 <= j < |places| ==> places[j].shader < codes.Length
    modifies codes
    ensures Sliceable(lib, g, plain, data, places, size) ==> ok && forall i ::
      0 <= i < |g| ==> g[i] < codes.Length && codes[g[i]] == PlainOf(plain, g[i])
    ensures forall s ::
      0 <= s < codes.Length && s !in g && Sliceable(lib, g, plain, data, places, size) ==> codes[s] == old(codes[s])
  {
    ghost var sliceable := Sliceable(lib, g, plain, data, places, size);
    for i := 0 to |places|
      invariant sliceable ==> i <= |g| && forall j ::
        0 <= j < i ==> g[j] < codes.Length && codes[g[j]] == PlainOf(plain, g[j])
      invariant sliceable ==> forall s :: 0 <= s < codes.Length && s !in g ==> codes[s] == old(codes[s])
    {
      var start, end := places[i].offset, PlaceEnd(places, size, i);
      if sliceable {
        SliceIsCode(lib, g, plain, data, places, size, i);
      }
      if start > end || end > |data| {
        return false;
      }
      codes[places[i].shader] := data[start..end];
    }
    ok := true;
  }

  ghost predicate Sliceable(lib: Library, g: seq<nat>, plain: seq<seq<byte>>, data: seq<byte>, places: seq<Place>,
                            size: nat)
  {
    && Codes(lib, plain) && Distinct(g) && data == GroupCode(plain, g, |g|) && places == PlacesOf(lib, g) &&
       size == PrefixSize(lib, g, |g|)
  }

  lemma {:induction false} SliceIsCode(lib: Library, g: seq<nat>, plain: seq<seq<byte>>, data: seq<byte>,
                                       places: seq<Place>, size: nat, i: nat)
    requires Sliceable(lib, g, plain, data, places, size) && i < |places|
    ensures i < |g| && places[i].shader == g[i] && places[i].offset <= PlaceEnd(places, size, i) <= |data|
    ensures data[places[i].offset..PlaceEnd(places, size, i)] == PlainOf(plain, g[i])
  {
    PlaceEndIsNext(lib, g, i);
    CodeInGroup(lib, plain, g, i, |g|);
  }

  /** One group of the reading loop. */
  method ReadGroup(codec: Codec, method_: nat, header: ArchiveHeader, k: nat, chunk: seq<byte>, codes: array<seq<byte>>,
                   ghost lib: Library, ghost g: seq<nat>, ghost plain: seq<seq<byte>>)
    returns (ok: bool)
    requires k < |header.groupEntries| && codes.Length == |header.shaderEntries|
    modifies codes
    ensures ok ==>
      header.groupEntries[k].count > 0 &&
      forall i :: 0 <= i < header.groupEntries[k].count ==> ClaimsGroup(header, k, i)
    ensures GroupReadable(codec, method_, lib, plain, g, header, k, chunk) ==>
      ok && forall i :: 0 <= i < |g| ==> g[i] < codes.Length && codes[g[i]] == PlainOf(plain, g[i])
    ensures GroupReadable(codec, method_, lib, plain, g, header, k, chunk) ==>
      forall s :: 0 <= s < codes.Length && s !in g ==> codes[s] == old(codes[s])
  {
    ghost var readable := GroupReadable(codec, method_, lib, plain, g, header, k, chunk);
    var data := GroupData(codec, method_, header.groupEntries[k], chunk, GroupCode(plain, g, |g|));
    if data.None? {
      return false;
    }
    var places := ReadPlaces(header, k, lib, g);
    if places.None? {
      return false;
    }
    if readable {
      PlacesAscend(lib, g);
      GroupCodeLength(lib, plain, g, |g|);
    }
    var sorted := SortPlaces(places.value);
    SortedInRange(places.value, sorted, codes.Length);
    if sorted == [] {
      return false;
    }
    ok := CutGroup(data.value, sorted, header.groupEntries[k].uncompressedSize, codes, lib, g, plain);
  }

  lemma {:induction false} SortedInRange(places: seq<Place>, sorted: seq<Place>, n: nat)
    requires multiset(sorted) == multiset(places) && forall j :: 0 <= j < |places| ==> places[j].shader < n
    ensures forall j :: 0 <= j < |sorted| ==> sorted[j].shader < n
  {
    forall j | 0 <= j < |sorted| ensures sorted[j].shader < n {
      SameMembers(sorted, places, sorted[j]);
    }
  }
}
