/** A shader library grouped, written and read back. */
module ShaderRoundTrip {
  import opened Package
  import opened Bytes
  import opened Codecs
  import opened ShaderGroups
  import opened ShaderPartition
  import opened ShaderSplit
  import opened ShaderPacking
  import opened ShaderLayout
  import opened ShaderArchive

  lemma {:induction false} NoMoreGroupsThanShaders(groups: seq<seq<nat>>)
    requires NoEmptyGroup(groups)
    ensures |groups| <= |AllOf(groups)|
  {
    if groups != [] {
      assert groups[|groups| - 1] in groups;
      var front := groups[..|groups| - 1];
      forall g | g in front ensures g != [] {
        assert g in groups;
      }
      NoMoreGroupsThanShaders(front);
    }
  }

  // ---- Reading an archive ----

  /** Everything that reading needs of an archive. */
  ghost predicate ArchiveReadable(codec: Codec, method_: nat, lib: Library, plain: seq<seq<byte>>,
                                  groups: seq<seq<nat>>, archive: Archive)
  {
    && |archive.header.groupEntries| == |groups| == |archive.chunks|
    && AllOf(groups) == multiset(Numbers(|lib.entries|)) && Disjoint(groups)
    && Codes(lib, plain) && |archive.header.shaderEntries| == |lib.entries|
    && forall k ::
      0 <= k < |groups| ==> GroupReadable(codec, method_, lib, plain, groups[k], archive.header, k, archive.chunks[k])
  }

  /** The codes of the first `n` groups are in place. */
  ghost predicate ReadUpTo(groups: seq<seq<nat>>, plain: seq<seq<byte>>, codes: seq<seq<byte>>, n: nat)
    requires n <= |groups|
  {
    forall k, i ::
      0 <= k < n && 0 <= i < |groups[k]| ==>
      groups[k][i] < |codes| && codes[groups[k][i]] == PlainOf(plain, groups[k][i])
  }

  lemma {:induction false} ReadOneMore(groups: seq<seq<nat>>, plain: seq<seq<byte>>, codes: seq<seq<byte>>,
                                       codes': seq<seq<byte>>, n: nat)
    requires n < |groups| && Disjoint(groups) && ReadUpTo(groups, plain, codes, n) && |codes'| == |codes|
    requires forall i ::
      0 <= i < |groups[n]| ==> groups[n][i] < |codes'| && codes'[groups[n][i]] == PlainOf(plain, groups[n][i])
    requires forall s :: 0 <= s < |codes| && s !in groups[n] ==> codes'[s] == codes[s]
    ensures ReadUpTo(groups, plain, codes', n + 1)
  {
    forall k, i | 0 <= k < n && 0 <= i < |groups[k]|
      ensures groups[k][i] < |codes'| && codes'[groups[k][i]] == PlainOf(plain, groups[k][i])
    {
      forall j | 0 <= j < |groups[n]| ensures groups[n][j] != groups[k][i] {
      }
      assert groups[k][i] !in groups[n];
    }
  }

  /** With every group read every shader has its code. */
  lemma {:induction false} AllRead(lib: Library, groups: seq<seq<nat>>, plain: seq<seq<byte>>, codes: seq<seq<byte>>)
    requires AllOf(groups) == multiset(Numbers(|lib.entries|)) && Codes(lib, plain) && |codes| == |plain|
    requires ReadUpTo(groups, plain, codes, |groups|)
    ensures codes == plain
  {
    forall s: nat | s < |codes| ensures codes[s] == plain[s] {
      OnePlace(groups, |lib.entries|, s);
      var k :| 0 <= k < |groups| && s in groups[k];
      var i :| 0 <= i < |groups[k]| && groups[k][i] == s;
    }
  }

  /**
   * `IoStoreShaderCodeArchive::read`: the code of every shader. A readable archive fails exactly when some shader has
   * size zero, since the last check takes empty code for a shader that is in no group.
   */
  method ReadArchive(codec: Codec, method_: nat, archive: Archive, ghost lib: Library, ghost groups: seq<seq<nat>>,
                     ghost plain: seq<seq<byte>>)
    returns (r: Result<seq<seq<byte>>>)
    requires |archive.chunks| == |archive.header.groupEntries|
    ensures ArchiveReadable(codec, method_, lib, plain, groups, archive) ==> (r.Success? <==> lib.PositiveSizes())
    ensures ArchiveReadable(codec, method_, lib, plain, groups, archive) && r.Success? ==> r.value == plain
    ensures r.Success? ==> forall s :: 0 <= s < |r.value| ==> r.value[s] != []
  {
    ghost var readable := ArchiveReadable(codec, method_, lib, plain, groups, archive);
    var codes: array<seq<byte>> := new seq<byte>[|archive.header.shaderEntries|](_ => []);
    for k := 0 to |archive.chunks|
      invariant readable ==> ReadUpTo(groups, plain, codes[..], k)
    {
      ghost var before, g := codes[..], if readable then groups[k] else [];
      var ok := ReadGroup(codec, method_, archive.header, k, archive.chunks[k], codes, lib, g, plain);
      if !ok {
        return Failure("shader group cannot be read");
      }
      if readable {
        ReadOneMore(groups, plain, before, codes[..], k);
      }
    }
    if readable {
      AllRead(lib, groups, plain, codes[..]);
      SizesAndCodes(lib, plain);
    }
    for s := 0 to codes.Length
      invariant forall t :: 0 <= t < s ==> codes[t] != []
    {
      if codes[s] == [] {
        return Failure("shader was not found in any shader group");
      }
    }
    r := Success(codes[..]);
  }

  lemma {:induction false} SizesAndCodes(lib: Library, plain: seq<seq<byte>>)
    requires Codes(lib, plain)
    ensures lib.PositiveSizes() <==> forall s :: 0 <= s < |plain| ==> plain[s] != []
  {
    assert lib.PositiveSizes() <==> forall s :: 0 <= s < |plain| ==> lib.entries[s].uncompressedSize > 0;
  }

  // ---- The whole way ----

  /** The code of each shader that has one, and placeholder bytes of the right size for the others. */
  ghost function PlainCodes(codec: Codec, method_: nat, code: seq<byte>, lib: Library): (plain: seq<seq<byte>>)
    requires codec.Lawful()
    ensures CodesRead(codec, method_, code, lib, plain)
  {
    seq(|lib.entries|, s requires 0 <= s < |lib.entries| =>
      var c := ShaderCode(codec, method_, code, lib.entries[s]);
      if c.Some? then c.value else seq(lib.entries[s].uncompressedSize, _ => 0))
  }

  /** Limits under which group indices and offsets fit their 30 bits. */
  ghost predicate WithinLimits(lib: Library, max: nat) {
    && 0 < max && 2 * max <= FIELD_VALUES && |lib.entries| <= FIELD_VALUES
    && forall e :: e in lib.entries ==> e.uncompressedSize < FIELD_VALUES
  }

  lemma {:induction false} GroupsFit(lib: Library, groups: seq<seq<nat>>, max: nat)
    requires lib.Valid() && Grouping(lib, groups, max) && NoEmptyGroup(groups) && WithinLimits(lib, max)
    ensures FitsFields(lib, groups)
  {
    NoMoreGroupsThanShaders(groups);
    assert |multiset(Numbers(|lib.entries|))| == |lib.entries|;
    forall k | 0 <= k < |groups| ensures PrefixSize(lib, groups[k], |groups[k]|) < FIELD_VALUES {
      var g := groups[k];
      assert g in groups;
      PrefixSizeIsLoad(lib, g, |g|);
      assert g[..|g|] == g;
      if |g| > 1 {
        BelowTwice(lib, g, max);
      } else {
        MemberInRange(groups, k, g[0], |lib.entries|);
        LoadAppend(lib, [], g[0]);
        assert [] + [g[0]] == g && lib.entries[g[0]] in lib.entries;
      }
    }
  }

  lemma {:induction false} GroupsInLibrary(lib: Library, groups: seq<seq<nat>>)
    requires AllOf(groups) == multiset(Numbers(|lib.entries|))
    ensures forall k :: 0 <= k < |groups| ==> InLibrary(lib, groups[k])
    ensures forall g :: g in groups ==> InLibrary(lib, g)
  {
    forall k: nat, s | k < |groups| && s in groups[k] ensures s < |lib.entries| {
      MemberInRange(groups, k, s, |lib.entries|);
    }
  }

  lemma {:induction false} StoredIsReadable(codec: Codec, method_: nat, lib: Library, plain: seq<seq<byte>>,
                                            groups: seq<seq<nat>>, archive: Archive)
    requires AllOf(groups) == multiset(Numbers(|lib.entries|)) && NoEmptyGroup(groups)
    requires Codes(lib, plain) && FitsFields(lib, groups) &&
             Stores(codec, method_, lib, groups, plain, archive, |groups|)
    ensures ArchiveReadable(codec, method_, lib, plain, groups, archive)
  {
    PartitionDisjoint(groups, |lib.entries|);
    GroupsInLibrary(lib, groups);
    forall k | 0 <= k < |groups|
      ensures GroupReadable(codec, method_, lib, plain, groups[k], archive.header, k, archive.chunks[k]) {
      assert groups[k] in groups;
      GroupDistinct(groups, k);
      LaidOutPlacesFit(lib, groups, archive.header, k);
    }
  }

  lemma {:induction false} LayoutHasNoEmpty(indices: seq<nat>, groups: seq<seq<nat>>)
    requires LayoutFits(indices, groups)
    ensures NoEmptyGroup(groups)
  {
    forall g | g in groups ensures g != [] {
      var k :| 0 <= k < |groups| && groups[k] == g;
      assert FitsAt(indices, groups, k);
    }
  }

  /** `build_io_store_shader_code_archive_header`: the groups and their layout. */
  method FormHeader(lib: Library, separateRaytracing: bool, max: nat)
    returns (groups: seq<seq<nat>>, header: Result<ArchiveHeader>, ghost whole: seq<seq<nat>>)
    requires lib.Valid() && WithinLimits(lib, max)
    ensures Grouping(lib, groups, max) && Classes(lib, separateRaytracing, whole) && SplitUp(lib, groups, whole, max)
    ensures header.Success? <==> LayoutFits(lib.indices, groups)
    ensures FewUnnamed(lib) ==> (header.Success? <==> AllFill(lib, whole, max))
    ensures header.Success? ==> LaidOut(lib, groups, header.value, |groups|) && FitsFields(lib, groups)
  {
    groups, whole := BuildGroups(lib, separateRaytracing, max);
    PartitionDisjoint(groups, |lib.entries|);
    GroupsInLibrary(lib, groups);
    header := BuildHeader(lib, groups);
    if FewUnnamed(lib) {
      FewUnnamedFits(lib, groups);
    }
    if header.Success? {
      LayoutHasNoEmpty(lib.indices, groups);
      GroupsFit(lib, groups, max);
    }
  }

  ghost predicate AllWritable(codec: Codec, method_: nat, code: seq<byte>, lib: Library, groups: seq<seq<nat>>)
    requires codec.Lawful()
  {
    forall k :: 0 <= k < |groups| ==>
      Writable(codec, method_, code, lib, groups, PlainCodes(codec, method_, code, lib), k)
  }

  /**
   * The header and chunks of a library. This succeeds exactly when the groups can be laid out and every group can be
   * written. Where shaders that no map names are few, the groups can be laid out exactly when every class that is split
   * has enough shaders with code.
   */
  method WriteLibrary(codec: Codec, method_: nat, code: seq<byte>, lib: Library, separateRaytracing: bool, max: nat)
    returns (r: Result<Archive>, ghost groups: seq<seq<nat>>, ghost whole: seq<seq<nat>>)
    requires codec.Lawful() && lib.Valid() && WithinLimits(lib, max)
    ensures Grouping(lib, groups, max) && Classes(lib, separateRaytracing, whole) && SplitUp(lib, groups, whole, max)
    ensures r.Success? <==> LayoutFits(lib.indices, groups) && AllWritable(codec, method_, code, lib, groups)
    ensures FewUnnamed(lib) ==> (LayoutFits(lib.indices, groups) <==> AllFill(lib, whole, max))
    ensures r.Success? ==> lib.indices <= r.value.header.indices
    ensures r.Success? ==> ArchiveReadable(codec, method_, lib, PlainCodes(codec, method_, code, lib), groups, r.value)
    ensures r.Success? ==> forall s: nat :: s < |lib.entries| ==> HasCode(codec, method_, code, lib, s)
  {
    var formed, header;
    formed, header, whole := FormHeader(lib, separateRaytracing, max);
    groups := formed;
    if header.Failure? {
      return Failure(header.error), groups, whole;
    }
    ghost var plain := PlainCodes(codec, method_, code, lib);
    GroupsInLibrary(lib, groups);
    r := WriteArchive(codec, method_, code, lib, header.value, groups, plain);
    if r.Success? {
      AllCodesRead(codec, method_, code, lib, groups);
      LayoutHasNoEmpty(lib.indices, groups);
      StoredIsReadable(codec, method_, lib, plain, groups, r.value);
    }
  }

  /** A code for every shader of every group is a code for every shader. */
  lemma {:induction false} AllCodesRead(codec: Codec, method_: nat, code: seq<byte>, lib: Library,
                                        groups: seq<seq<nat>>)
    requires AllOf(groups) == multiset(Numbers(|lib.entries|))
    requires codec.Lawful() && AllWritable(codec, method_, code, lib, groups)
    ensures forall s: nat :: s < |lib.entries| ==> HasCode(codec, method_, code, lib, s)
  {
    forall s: nat | s < |lib.entries| ensures HasCode(codec, method_, code, lib, s) {
      OnePlace(groups, |lib.entries|, s);
      var k :| 0 <= k < |groups| && s in groups[k];
      var i :| 0 <= i < |groups[k]| && groups[k][i] == s;
      assert Writable(codec, method_, code, lib, groups, PlainCodes(codec, method_, code, lib), k);
    }
  }

  /**
   * A library written and read back. It can be written exactly when its groups can be laid out and written; what was
   * written reads back, with the code of every shader unchanged, exactly when no shader has size zero.
   */
  method WriteThenRead(codec: Codec, method_: nat, code: seq<byte>, lib: Library, separateRaytracing: bool, max: nat)
    returns (written: Result<Archive>, r: Result<seq<seq<byte>>>, ghost groups: seq<seq<nat>>,
             ghost whole: seq<seq<nat>>)
    requires codec.Lawful() && lib.Valid() && WithinLimits(lib, max)
    ensures Grouping(lib, groups, max) && Classes(lib, separateRaytracing, whole) && SplitUp(lib, groups, whole, max)
    ensures written.Success? <==> LayoutFits(lib.indices, groups) && AllWritable(codec, method_, code, lib, groups)
    ensures FewUnnamed(lib) ==> (LayoutFits(lib.indices, groups) <==> AllFill(lib, whole, max))
    ensures r.Success? <==> written.Success? && lib.PositiveSizes()
    ensures r.Success? ==> |r.value| == |lib.entries|
    ensures r.Success? ==> forall s ::
      0 <= s < |lib.entries| ==> Some(r.value[s]) == ShaderCode(codec, method_, code, lib.entries[s])
  {
    written, groups, whole := WriteLibrary(codec, method_, code, lib, separateRaytracing, max);
    r := Failure("nothing read");
    if written.Success? {
      r := ReadArchive(codec, method_, written.value, lib, groups, PlainCodes(codec, method_, code, lib));
      if r.Success? {
        forall s | 0 <= s < |lib.entries| ensures Some(r.value[s]) == ShaderCode(codec, method_, code, lib.entries[s]) {
          assert HasCode(codec, method_, code, lib, s);
        }
      }
    }
  }

  // ---- A library that is written but not read ----

  /** One map with one shader of size zero. */
  function ZeroSizeLibrary(): Library {
    Library([MapEntry(0, 1)], [0], [CodeEntry(0, 0, 0, 0)])
  }

  lemma {:induction false} NothingCompressed(lib: Library, g: seq<nat>, n: nat)
    requires n <= |g| && forall s :: s in g ==> !Compressed(lib, s)
    ensures !AnyCompressed(lib, g, n)
  {
    if n > 0 {
      NothingCompressed(lib, g, n - 1);
    }
  }

  lemma {:induction false} ZeroSizeLoad(g: seq<nat>)
    ensures Load(ZeroSizeLibrary(), g) == 0
  {
    if g != [] {
      ZeroSizeLoad(g[..|g| - 1]);
    }
  }

  lemma {:induction false} ZeroSizeWritable(codec: Codec, method_: nat, groups: seq<seq<nat>>)
    requires codec.Lawful() && AllOf(groups) == multiset(Numbers(1))
    ensures AllWritable(codec, method_, [], ZeroSizeLibrary(), groups)
  {
    var lib := ZeroSizeLibrary();
    GroupsInLibrary(lib, groups);
    forall k | 0 <= k < |groups| ensures !AnyCompressed(lib, groups[k], |groups[k]|) {
      NothingCompressed(lib, groups[k], |groups[k]|);
    }
    forall k, i | 0 <= k < |groups| && 0 <= i < |groups[k]| ensures HasCode(codec, method_, [], lib, groups[k][i]) {
      assert groups[k][i] in groups[k];
    }
  }

  /** Whatever the codec and the limits, this library is written and then cannot be read. */
  method ZeroSizeIsNotRead(codec: Codec, method_: nat, separateRaytracing: bool, max: nat)
    returns (written: Result<Archive>, r: Result<seq<seq<byte>>>)
    requires codec.Lawful() && WithinLimits(ZeroSizeLibrary(), max)
    ensures written.Success? && r.Failure?
  {
    ghost var groups, whole;
    written, r, groups, whole := WriteThenRead(codec, method_, [], ZeroSizeLibrary(), separateRaytracing, max);
    forall g | g in whole && g != [] ensures Fills(ZeroSizeLibrary(), g, max) {
      ZeroSizeLoad(g);
    }
    ZeroSizeWritable(codec, method_, groups);
    assert ZeroSizeLibrary().entries[0] in ZeroSizeLibrary().entries;
  }
}
