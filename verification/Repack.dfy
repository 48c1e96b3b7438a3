/** `repack_iostore`: every block of a container rewritten, no chunk changed. */
module Repack {
  import opened Bytes
  import opened Package
  import opened PackedFields
  import opened Codecs
  import opened Containers
  import opened ContainerWriter

  /** `IoStoreRepackStats`. */
  datatype Stats = Stats(blocks: nat, reusedBlocks: nat, recompressedBlocks: nat, outputBytes: nat)

  datatype Repacked = Repacked(toc: Toc, cas: seq<byte>, stats: Stats)

  function MethodTable(compression: Option<nat>): seq<nat> {
    if compression.Some? then [compression.value] else []
  }

  // ---- What a rewritten block keeps ----

  /** The file reaches beyond the bytes that belong to a block. */
  ghost predicate InFile(key: Option<nat>, cas: seq<byte>, block: BlockEntry)
    requires block.Valid()
  {
    block.Offset()
      + StoredSize(key, if block.MethodIndex() == 0 then block.UncompressedSize() else block.CompressedSize()) <= |cas|
  }

  lemma {:induction false} DecodedUnaffected(codec: Codec, methods: seq<nat>, key: Option<nat>, cas: seq<byte>,
                                             more: seq<byte>, block: BlockEntry)
    requires codec.Lawful() && block.Valid() && InFile(key, cas, block)
    ensures Decoded(codec, methods, key, cas + more, block) == Decoded(codec, methods, key, cas, block)
  {
    var n := if block.MethodIndex() == 0 then block.UncompressedSize() else block.CompressedSize();
    StoredLength(codec, key, cas, block.Offset(), n);
    StoredStays(codec, key, cas, more, block.Offset(), n);
  }

  /** The two sides of a repack: how blocks are decoded before and after it. */
  datatype Sides = Sides(codec: Codec, methods: seq<nat>, readKey: Option<nat>, source: seq<byte>,
                         compression: Option<nat>, writeKey: Option<nat>)
  {
    /** A rewritten block lies within the output and decodes to what the original block decodes to. */
    ghost predicate Kept(block: BlockEntry, output: seq<byte>, block': BlockEntry) {
      && block.Valid() && block'.Valid()
      && block'.UncompressedSize() == block.UncompressedSize()
      && InFile(writeKey, output, block')
      && Decoded(codec, MethodTable(compression), writeKey, output, block')
         == Decoded(codec, methods, readKey, source, block)
    }

    lemma {:induction false} KeptStays(block: BlockEntry, output: seq<byte>, more: seq<byte>, block': BlockEntry)
      requires codec.Lawful() && Kept(block, output, block')
      ensures Kept(block, output + more, block')
    {
      DecodedUnaffected(codec, MethodTable(compression), writeKey, output, more, block');
    }
  }

  /** Bytes that blocks occupy in the output. */
  ghost function Occupied(key: Option<nat>, blocks: seq<BlockEntry>, n: nat): nat
    requires n <= |blocks| && forall b :: b in blocks[..n] ==> b.Valid()
  {
    if n == 0 then 0
    else
      assert blocks[n - 1] in blocks[..n] && forall b :: b in blocks[..n - 1] ==> b in blocks[..n];
      Occupied(key, blocks, n - 1) + StoredSize(key, blocks[n - 1].CompressedSize())
  }

  // ---- One block ----

  /** The block's bytes as they are in the source, decrypted. */
  method Fetch(codec: Codec, key: Option<nat>, cas: seq<byte>, offset: nat, n: nat) returns (ok: bool, bytes: seq<byte>)
    requires codec.Lawful()
    ensures ok <==> Stored(codec, key, cas, offset, n).Some?
    ensures ok ==> Stored(codec, key, cas, offset, n) == Some(bytes) && |bytes| == n
  {
    var buffer := new byte[StoredSize(key, n)];
    ok := ReadStored(codec, key, cas, offset, n, buffer, 0);
    bytes := if ok then buffer[..n] else [];
    assert ok ==> buffer[0..n] == buffer[..n];
  }

  /** Bytes and method of an output block, and how they relate to the source block's. */
  ghost predicate Reencodes(codec: Codec, compression: Option<nat>, method_: Option<nat>, encoded: seq<byte>, size: nat,
                            encoded': seq<byte>, method': Option<nat>) {
    && (method'.Some? ==> method' == compression)
    && (method'.None? ==> |encoded'| == size)
    && Plain(codec, method', encoded', size) == Plain(codec, method_, encoded, size)
  }

  /** What stored bytes mean. */
  ghost function Plain(codec: Codec, method_: Option<nat>, encoded: seq<byte>, size: nat): Option<seq<byte>> {
    if method_.None? then Some(encoded) else codec.decompress(method_.value, encoded, size)
  }

  /** The plain bytes can be had and compressed as wanted. */
  ghost predicate Recodable(codec: Codec, compression: Option<nat>, plain: Option<seq<byte>>) {
    plain.Some? && (compression.Some? ==> codec.compress(compression.value, plain.value).Some?)
  }

  /** Compression makes the plain bytes smaller. */
  ghost predicate Shrinks(codec: Codec, compression: Option<nat>, plain: Option<seq<byte>>) {
    && plain.Some? && compression.Some?
    && var compressed := codec.compress(compression.value, plain.value);
       compressed.Some? && |compressed.value| < |plain.value|
  }

  /** Size of plain bytes once they are encoded: compressed only where that makes them smaller. */
  ghost function EncodedSize(codec: Codec, compression: Option<nat>, plain: Option<seq<byte>>): nat {
    if plain.None? then 0
    else if Shrinks(codec, compression, plain) then |codec.compress(compression.value, plain.value).value|
    else |plain.value|
  }

  /** A block is reused when its codec is wanted, or when it is raw and raw blocks are fine; otherwise it is recoded. */
  method Reencode(codec: Codec, compression: Option<nat>, preserveUncompressed: bool, method_: Option<nat>,
                  encoded: seq<byte>, size: nat)
    returns (ok: bool, reused: bool, encoded': seq<byte>, method': Option<nat>)
    requires codec.Lawful() && (method_.None? ==> |encoded| == size)
    ensures ok ==> Reencodes(codec, compression, method_, encoded, size, encoded', method')
    ensures reused <==> method_ == compression || (method_.None? && preserveUncompressed)
    ensures ok && reused ==> encoded' == encoded && method' == method_
    ensures ok <==> reused || Recodable(codec, compression, Plain(codec, method_, encoded, size))
    ensures ok ==> |encoded'| <= |encoded| || |encoded'| <= size
    ensures ok && !reused ==> |encoded'| == EncodedSize(codec, compression, Plain(codec, method_, encoded, size))
    ensures ok && !reused ==> (method'.Some? <==> Shrinks(codec, compression, Plain(codec, method_, encoded, size)))
  {
    ok, reused, encoded', method' := true, method_ == compression ||
      (method_.None? && preserveUncompressed), encoded, method_;
    if !reused {
      var decoded := if method_.None? then Some(encoded) else codec.decompress(method_.value, encoded, size);
      if decoded.None? {
        return false, reused, [], None;
      }
      encoded', method' := decoded.value, None;
      if compression.Some? {
        var recompressed := codec.compress(compression.value, decoded.value);
        if recompressed.None? {
          return false, reused, [], None;
        }
        if |recompressed.value| < |decoded.value| {
          encoded', method' := recompressed.value, compression;
        }
      }
    }
  }

  function MethodOf(methods: seq<nat>, block: BlockEntry): Option<nat>
    requires block.Valid() && block.MethodIndex() <= |methods|
  {
    if block.MethodIndex() == 0 then None else Some(methods[block.MethodIndex() - 1])
  }

  /** The checks on a block before it is read. */
  ghost predicate Acceptable(methods: seq<nat>, readKey: Option<nat>, blockSize: nat, source: seq<byte>,
                             block: BlockEntry)
    requires block.Valid()
  {
    && block.MethodIndex() <= |methods|
    && block.UncompressedSize() <= blockSize
    && block.CompressedSize() != 0
    && (block.MethodIndex() == 0 ==> block.CompressedSize() == block.UncompressedSize())
    && block.Offset() + StoredSize(readKey, block.CompressedSize()) <= |source|
  }

  /** What a block needs to be rewritten: it passes the checks, and is reused or can be decoded and encoded again. */
  ghost predicate Repackable(sides: Sides, blockSize: nat,
                             block: BlockEntry)
  {
    && block.Valid() && Acceptable(sides.methods, sides.readKey, blockSize, sides.source, block)
    && (Stays(sides.methods, sides.compression, block)
        || Recodable(sides.codec, sides.compression,
                     Decoded(sides.codec, sides.methods, sides.readKey, sides.source, block)))
  }

  /** Raw bytes stay raw unless a codec new to the container is wanted; bytes of the wanted codec stay as they are. */
  ghost predicate Stays(methods: seq<nat>, compression: Option<nat>, block: BlockEntry) {
    && block.Valid() && block.MethodIndex() <= |methods|
    && if block.MethodIndex() == 0 then compression.None? || compression.value in methods
       else compression == Some(methods[block.MethodIndex() - 1])
  }

  /** A reused block stays raw or compressed; any other is compressed exactly where that makes it smaller. */
  ghost predicate Chosen(sides: Sides, block: BlockEntry, block': BlockEntry) {
    && block.Valid() && block'.Valid() && block'.MethodIndex() <= 1
    && block'.CompressedSize() == NewSize(sides, block)
    && (block'.MethodIndex() == 0 <==>
        if Stays(sides.methods, sides.compression, block) then block.MethodIndex() == 0
        else !Shrinks(sides.codec, sides.compression,
                      Decoded(sides.codec, sides.methods, sides.readKey, sides.source, block)))
  }

  /** How many of the first `n` blocks stay encoded as they are. */
  ghost function StayCount(methods: seq<nat>, compression: Option<nat>, blocks: seq<BlockEntry>, n: nat): nat
    requires n <= |blocks|
  {
    if n == 0 then 0
    else StayCount(methods, compression, blocks, n - 1) + if Stays(methods, compression, blocks[n - 1]) then 1 else 0
  }

  /** Size of the rewritten block before encryption pads it. */
  ghost function NewSize(sides: Sides, block: BlockEntry): nat {
    if !block.Valid() || block.MethodIndex() > |sides.methods| then 0
    else if Stays(sides.methods, sides.compression, block) then block.CompressedSize()
    else EncodedSize(sides.codec, sides.compression,
                     Decoded(sides.codec, sides.methods, sides.readKey, sides.source, block))
  }

  /** Size of the output once the first `n` blocks are rewritten. */
  ghost function OutputSize(sides: Sides, blocks: seq<BlockEntry>, n: nat): nat
    requires n <= |blocks|
  {
    if n == 0 then 0
    else OutputSize(sides, blocks, n - 1)
         + StoredSize(sides.writeKey, NewSize(sides, blocks[n - 1]))
  }

  /** A source block that was read means what its stored bytes mean. */
  lemma {:induction false} SourceMeans(codec: Codec, methods: seq<nat>, readKey: Option<nat>, blockSize: nat,
                                       source: seq<byte>, block: BlockEntry, encoded: seq<byte>)
    requires codec.Lawful() && block.Valid() && Acceptable(methods, readKey, blockSize, source, block)
    requires Stored(codec, readKey, source, block.Offset(), block.CompressedSize()) == Some(encoded)
    ensures Decoded(codec, methods, readKey, source, block)
      == Plain(codec, MethodOf(methods, block), encoded, block.UncompressedSize())
  {
  }

  /** An output block means what the bytes put into it mean. */
  lemma {:induction false} OutputMeans(codec: Codec, compression: Option<nat>, writeKey: Option<nat>,
                                       output: seq<byte>, written: seq<byte>, encoded: seq<byte>, method_: Option<nat>,
                                       size: nat, block: BlockEntry)
    requires codec.Lawful() && StoredIn(codec, writeKey, written, encoded) && (method_.Some? ==> method_ == compression)
    requires method_.None? ==> |encoded| == size
    requires EntryFor(block, |output|, |encoded|, size, if method_.Some? then 1 else 0)
    ensures InFile(writeKey, output + written, block)
    ensures Decoded(codec, MethodTable(compression), writeKey, output + written, block)
      == Plain(codec, method_, encoded, size)
  {
    StoredBehind(codec, writeKey, output, written, encoded);
  }

  /** One block of the source becomes one block of the output. */
  method RepackBlock(sides: Sides, preserveUncompressed: bool, blockSize: nat,
                     block: BlockEntry, outputBytes: nat, ghost output: seq<byte>)
    returns (ok: bool, reused: bool, written: seq<byte>, block': BlockEntry)
    requires sides.codec.Lawful() && block.Valid() &&
             outputBytes == |output|
    requires preserveUncompressed <==> sides.compression.None? || sides.compression.value in sides.methods
    ensures ok ==> sides.Kept(block, output + written, block') && block'.Offset() == outputBytes
    ensures ok ==> Chosen(sides, block, block') && (reused <==> Stays(sides.methods, sides.compression, block))
    ensures ok ==> |written| == StoredSize(sides.writeKey, block'.CompressedSize())
    ensures ok <==> Repackable(sides, blockSize, block) && outputBytes < OFFSET_LIMIT
    ensures ok ==> |written| <= SIZE_LIMIT
  {
    reused, written, block' := false, [], block;
    if block.MethodIndex() > |sides.methods| {
      return false, reused, written, block';
    }
    var size := block.UncompressedSize();
    if size > blockSize || block.CompressedSize() == 0 ||
       (block.MethodIndex() == 0 && block.CompressedSize() != size) {
      return false, reused, written, block';
    }
    if block.Offset() + StoredSize(sides.readKey, block.CompressedSize()) > |sides.source| {
      return false, reused, written, block';
    }
    var method_ := MethodOf(sides.methods, block);
    var encoded, method': Option<nat>;
    StoredLength(sides.codec, sides.readKey, sides.source, block.Offset(), block.CompressedSize());
    ok, encoded := Fetch(sides.codec, sides.readKey, sides.source, block.Offset(), block.CompressedSize());
    SourceMeans(sides.codec, sides.methods, sides.readKey, blockSize, sides.source, block, encoded);
    ok, reused, encoded,
      method' := Reencode(sides.codec, sides.compression, preserveUncompressed, method_, encoded, size);
    SizesFit(block);
    if !ok || outputBytes >= OFFSET_LIMIT || |encoded| >= SIZE_LIMIT {
      ok := false;
      return;
    }
    written := Obfuscate(sides.codec, sides.writeKey, encoded);
    block' := NewBlockEntry(outputBytes, |encoded|, size, if method'.Some? then 1 else 0);
    StoredSizeFits(sides.writeKey, |encoded|);
    EntryFits(outputBytes, |encoded|, size, if method'.Some? then 1 else 0);
    OutputMeans(sides.codec, sides.compression, sides.writeKey, output, written, encoded, method', size, block');
  }

  lemma {:induction false} SizesFit(block: BlockEntry)
    requires block.Valid()
    ensures block.UncompressedSize() < SIZE_LIMIT && block.CompressedSize() < SIZE_LIMIT
  {
    FieldLimits();
    FromLeBound(block.data[8..11]);
    FromLeBound(block.data[5..8]);
  }

  lemma {:induction false} StoredSizeFits(key: Option<nat>, n: nat)
    requires n <= SIZE_LIMIT
    ensures StoredSize(key, n) <= SIZE_LIMIT
  {
    AlignIsLeast(n, 16, SIZE_LIMIT / 16);
  }

  // ---- The block loop ----

  /** The first `n` blocks of the table have been rewritten, end to end; the rest is as it was. */
  ghost predicate RewrittenUpTo(sides: Sides, table: seq<BlockEntry>, blocks: seq<BlockEntry>, output: seq<byte>,
                                n: nat)
    requires n <= |table| == |blocks|
  {
    && (forall k :: 0 <= k < n ==> RewrittenAt(sides, table, blocks, output, k))
    && (forall k :: n <= k < |blocks| ==> table[k] == blocks[k])
  }

  ghost predicate RewrittenAt(sides: Sides, table: seq<BlockEntry>, blocks: seq<BlockEntry>, output: seq<byte>, k: nat)
    requires k < |table| == |blocks|
  {
    sides.Kept(blocks[k], output, table[k]) && Chosen(sides, blocks[k], table[k])
  }

  /** Each of the first `n` blocks can be rewritten, and starts within reach of a 40-bit offset. */
  ghost predicate AllRepackable(sides: Sides, blockSize: nat,
                                blocks: seq<BlockEntry>, n: nat)
    requires n <= |blocks|
  {
    forall k :: 0 <= k < n ==> RepackableAt(sides, blockSize, blocks, k)
  }

  ghost predicate RepackableAt(sides: Sides, blockSize: nat,
                               blocks: seq<BlockEntry>, k: nat)
    requires k < |blocks|
  {
    && Repackable(sides, blockSize, blocks[k])
    && OutputSize(sides, blocks, k) < OFFSET_LIMIT
  }

  /** Blocks that offsets of 40 bits can address whatever their sizes. */
  const ADDRESSABLE_BLOCKS: nat := 0x1_0000

  /** With so few blocks every offset fits: a rewritten block takes at most 2^24 bytes. */
  lemma {:induction false} FewBlocksFit(sides: Sides, blockSize: nat, blocks: seq<BlockEntry>)
    requires sides.codec.Lawful() && |blocks| <= ADDRESSABLE_BLOCKS
    requires forall k ::
      0 <= k < |blocks| ==> Repackable(sides, blockSize, blocks[k])
    ensures AllRepackable(sides, blockSize, blocks, |blocks|)
  {
    forall k | 0 <= k < |blocks| ensures RepackableAt(sides, blockSize, blocks, k) {
      OutputBound(sides, blockSize, blocks, k);
    }
  }

  lemma {:induction false} OutputBound(sides: Sides, blockSize: nat, blocks: seq<BlockEntry>, n: nat)
    requires sides.codec.Lawful() && n <= |blocks|
    requires forall k :: 0 <= k < n ==> Repackable(sides, blockSize, blocks[k])
    ensures OutputSize(sides, blocks, n) <= 0x100_0000 * n
  {
    if n > 0 {
      OutputBound(sides, blockSize, blocks, n - 1);
      NewSizeFits(sides, blockSize, blocks[n - 1]);
      StoredSizeFits(sides.writeKey, NewSize(sides, blocks[n - 1]));
    }
  }

  lemma {:induction false} NewSizeFits(sides: Sides, blockSize: nat, block: BlockEntry)
    requires sides.codec.Lawful() && Repackable(sides, blockSize, block)
    ensures NewSize(sides, block) < SIZE_LIMIT
  {
    SizesFit(block);
    StoredLength(sides.codec, sides.readKey, sides.source, block.Offset(), block.UncompressedSize());
  }

  /** Output blocks tile the output: each starts where the ones before it end. */
  ghost predicate TilesOutput(key: Option<nat>, table: seq<BlockEntry>, n: nat, size: nat)
    requires n <= |table|
  {
    && (forall b :: b in table ==> b.Valid())
    && (forall k :: 0 <= k < n ==> BehindOthers(key, table, k))
    && size == Occupied(key, table, n)
  }

  ghost predicate BehindOthers(key: Option<nat>, table: seq<BlockEntry>, k: nat)
    requires k < |table| && forall b :: b in table ==> b.Valid()
  {
    table[k].Offset() == Occupied(key, table, k)
  }

  lemma {:induction false} RewriteOne(sides: Sides, table: seq<BlockEntry>, blocks: seq<BlockEntry>, output: seq<byte>,
                                      n: nat, written: seq<byte>, block': BlockEntry)
    requires n < |table| == |blocks| && sides.codec.Lawful() && RewrittenUpTo(sides, table, blocks, output, n)
    requires sides.Kept(blocks[n], output + written, block') && Chosen(sides, blocks[n], block')
    ensures RewrittenUpTo(sides, table[n := block'], blocks, output + written, n + 1)
  {
    var table' := table[n := block'];
    forall k | 0 <= k < n + 1 ensures RewrittenAt(sides, table', blocks, output + written, k) {
      if k < n {
        assert RewrittenAt(sides, table, blocks, output, k);
        sides.KeptStays(blocks[k], output, written, table[k]);
      }
    }
  }

  lemma {:induction false} OccupiedSame(key: Option<nat>, table: seq<BlockEntry>, table': seq<BlockEntry>, n: nat)
    requires n <= |table| && n <= |table'| && (forall b :: b in table ==> b.Valid()) &&
             (forall b :: b in table' ==> b.Valid())
    requires forall k :: 0 <= k < n ==> table[k] == table'[k]
    ensures Occupied(key, table, n) == Occupied(key, table', n)
  {
    if n > 0 {
      OccupiedSame(key, table, table', n - 1);
    }
  }

  lemma {:induction false} TileOne(key: Option<nat>, table: seq<BlockEntry>, n: nat, size: nat, written: nat,
                                   block': BlockEntry)
    requires n < |table| && TilesOutput(key, table, n, size) && block'.Valid()
    requires block'.Offset() == size && written == StoredSize(key, block'.CompressedSize())
    ensures TilesOutput(key, table[n := block'], n + 1, size + written)
  {
    var table' := table[n := block'];
    forall b | b in table' ensures b.Valid() {
      assert b == block' || b in table;
    }
    OccupiedSame(key, table, table', n);
    forall k | 0 <= k < n + 1 ensures BehindOthers(key, table', k) {
      assert k < n ==> BehindOthers(key, table, k);
      OccupiedSame(key, table, table', k);
    }
  }

  /** A rewritten block behind the output so far. */
  lemma {:induction false} RepackOne(sides: Sides, table: seq<BlockEntry>, blocks: seq<BlockEntry>, output: seq<byte>,
                                     n: nat, written: seq<byte>, block': BlockEntry)
    requires n < |table| == |blocks| && sides.codec.Lawful() && RewrittenUpTo(sides, table, blocks, output, n)
    requires TilesOutput(sides.writeKey, table, n, |output|)
    requires sides.Kept(blocks[n], output + written, block') && Chosen(sides, blocks[n], block')
    requires block'.Offset() == |output|
    requires |written| == StoredSize(sides.writeKey, block'.CompressedSize())
    ensures RewrittenUpTo(sides, table[n := block'], blocks, output + written, n + 1)
    ensures TilesOutput(sides.writeKey, table[n := block'], n + 1, |output + written|)
  {
    RewriteOne(sides, table, blocks, output, n, written, block');
    TileOne(sides.writeKey, table, n, |output|, |written|, block');
  }

  /** What has been counted after `n` of the blocks; every block takes at most 2^24 bytes. */
  ghost predicate Counted(sides: Sides, stats: Stats, blocks: seq<BlockEntry>, n: nat, size: nat)
    requires n <= |blocks|
  {
    && stats.blocks == |blocks| && stats.reusedBlocks + stats.recompressedBlocks == n
    && stats.reusedBlocks == StayCount(sides.methods, sides.compression, blocks, n)
    && stats.outputBytes == size == OutputSize(sides, blocks, n) && size <= 0x100_0000 * n
  }

  /** What the loop has reached after `n` of the blocks. */
  ghost predicate Progress(sides: Sides, table: seq<BlockEntry>, blocks: seq<BlockEntry>, output: seq<byte>,
                           stats: Stats, n: nat)
    requires n <= |table| == |blocks|
  {
    && RewrittenUpTo(sides, table, blocks, output, n)
    && TilesOutput(sides.writeKey, table, n, |output|) && Counted(sides, stats, blocks, n, |output|)
  }

  /** One pass of the loop. */
  method RepackAt(sides: Sides, preserveUncompressed: bool, blockSize: nat, table: array<BlockEntry>, n: nat,
                  output: seq<byte>, stats: Stats, ghost blocks: seq<BlockEntry>)
    returns (ok: bool, output': seq<byte>, stats': Stats)
    requires sides.codec.Lawful() && n < table.Length == |blocks|
    requires Progress(sides, table[..], blocks, output, stats, n)
    requires preserveUncompressed <==> sides.compression.None? || sides.compression.value in sides.methods
    modifies table
    ensures ok <==> RepackableAt(sides, blockSize, blocks, n)
    ensures ok ==> Progress(sides, table[..], blocks, output', stats', n + 1)
  {
    output', stats' := output, stats;
    ghost var before := table[..];
    assert before[n] == blocks[n] && before[n] in before;
    var reused, written, block';
    ok, reused, written,
      block' := RepackBlock(sides, preserveUncompressed, blockSize, table[n], stats.outputBytes, output);
    if ok {
      table[n] := block';
      assert table[..] == before[n := block'];
      RepackOne(sides, before, blocks, output, n, written, block');
      output' := output + written;
      stats' := Stats(stats.blocks, stats.reusedBlocks + (if reused then 1 else 0),
                      stats.recompressedBlocks + (if reused then 0 else 1),
                      stats.outputBytes + |written|);
    }
  }

  /**
   * The loop of `repack_iostore` over the block table, which it rewrites in place. It fails exactly on a block that
   * cannot be rewritten or that would start beyond a 40-bit offset.
   */
  method RepackBlocks(sides: Sides, preserveUncompressed: bool, blockSize: nat, table: array<BlockEntry>)
    returns (ok: bool, output: seq<byte>, stats: Stats)
    requires sides.codec.Lawful() && forall b :: b in table[..] ==> b.Valid()
    requires preserveUncompressed <==> sides.compression.None? || sides.compression.value in sides.methods
    modifies table
    ensures ok ==> Progress(sides, table[..], old(table[..]), output, stats, table.Length)
    ensures ok <==> AllRepackable(sides, blockSize, old(table[..]), table.Length)
  {
    output, stats := [], Stats(table.Length, 0, 0, 0);
    ghost var blocks := table[..];
    for n := 0 to table.Length
      invariant Progress(sides, table[..], blocks, output, stats, n)
      invariant AllRepackable(sides, blockSize, blocks, n)
    {
      ok, output, stats := RepackAt(sides, preserveUncompressed, blockSize, table, n, output, stats, blocks);
      if !ok {
        return;
      }
    }
    ok := true;
  }

  /** The rewritten block table, with the table of the source as it was. */
  method RepackTable(sides: Sides, preserveUncompressed: bool, blockSize: nat, blocks: seq<BlockEntry>)
    returns (ok: bool, blocks': seq<BlockEntry>, output: seq<byte>, stats: Stats)
    requires sides.codec.Lawful() && forall b :: b in blocks ==> b.Valid()
    requires preserveUncompressed <==> sides.compression.None? || sides.compression.value in sides.methods
    ensures |blocks'| == |blocks|
    ensures ok ==> Progress(sides, blocks', blocks, output, stats, |blocks|)
    ensures ok <==> AllRepackable(sides, blockSize, blocks, |blocks|)
  {
    var table := new BlockEntry[|blocks|](i requires 0 <= i < |blocks| => blocks[i]);
    assert table[..] == blocks;
    ok, output, stats := RepackBlocks(sides, preserveUncompressed, blockSize, table);
    blocks' := table[..];
  }

  // ---- Chunks ----

  /** Blocks that decode alike make up chunks that read alike. */
  lemma {:induction false} KeptBlocksDecode(sides: Sides, blocks: seq<BlockEntry>, blocks': seq<BlockEntry>,
                                            output: seq<byte>, n: nat)
    requires n <= |blocks| == |blocks'| && (forall b :: b in blocks ==> b.Valid()) &&
             (forall b :: b in blocks' ==> b.Valid())
    requires forall k :: 0 <= k < |blocks| ==> sides.Kept(blocks[k], output, blocks'[k])
    ensures PlainSize(blocks', n) == PlainSize(blocks, n)
    ensures DecodedUpTo(sides.codec, MethodTable(sides.compression), sides.writeKey, output, blocks', n)
         == DecodedUpTo(sides.codec, sides.methods, sides.readKey, sides.source, blocks, n)
  {
    if n > 0 {
      KeptBlocksDecode(sides, blocks, blocks', output, n - 1);
    }
  }

  /** A container and its repacked form read every well-formed chunk alike. */
  ghost predicate ReadsAlike(codec: Codec, toc: Toc, cas: seq<byte>, toc': Toc, cas': seq<byte>)
    requires toc.Valid() && toc'.Valid() && toc'.entries == toc.entries
  {
    forall i :: 0 <= i < |toc.entries| && WellFormed(toc, i) ==>
      WellFormed(toc', i) && ReadResult(codec, toc', cas', i) == ReadResult(codec, toc, cas, i)
  }

  lemma {:induction false} ChunkReadsAlike(sides: Sides, toc: Toc, toc': Toc, output: seq<byte>, i: nat)
    requires sides.codec.Lawful() && toc.Valid() && toc'.Valid() && !toc.KeyMissing() && !toc'.KeyMissing()
    requires toc'.entries == toc.entries && toc'.blockSize == toc.blockSize && |toc'.blocks| == |toc.blocks|
    requires sides.methods == toc.methods && sides.readKey == toc.CryptKey()
    requires MethodTable(sides.compression) == toc'.methods && sides.writeKey == toc'.CryptKey()
    requires RewrittenUpTo(sides, toc'.blocks, toc.blocks, output, |toc.blocks|)
    requires i < |toc.entries| && WellFormed(toc, i)
    ensures WellFormed(toc', i) &&
            ReadResult(sides.codec, toc', output, i) == ReadResult(sides.codec, toc, sides.source, i)
  {
    var blocks, blocks' := BlocksOf(toc, i), BlocksOf(toc', i);
    assert forall b :: b in blocks' ==> b in toc'.blocks;
    forall k | 0 <= k < |blocks| ensures sides.Kept(blocks[k], output, blocks'[k]) {
      assert RewrittenAt(sides, toc'.blocks, toc.blocks, output, FirstBlock(toc, i) + k);
      assert blocks[k] == toc.blocks[FirstBlock(toc, i) + k] && blocks'[k] == toc'.blocks[FirstBlock(toc, i) + k];
    }
    KeptBlocksDecode(sides, blocks, blocks', output, |blocks|);
  }

  lemma {:induction false} AllReadAlike(sides: Sides, toc: Toc, toc': Toc, output: seq<byte>)
    requires sides.codec.Lawful() && toc.Valid() && toc'.Valid() && !toc.KeyMissing() && !toc'.KeyMissing()
    requires toc'.entries == toc.entries && toc'.blockSize == toc.blockSize && |toc'.blocks| == |toc.blocks|
    requires sides.methods == toc.methods && sides.readKey == toc.CryptKey()
    requires MethodTable(sides.compression) == toc'.methods && sides.writeKey == toc'.CryptKey()
    requires RewrittenUpTo(sides, toc'.blocks, toc.blocks, output, |toc.blocks|)
    ensures ReadsAlike(sides.codec, toc, sides.source, toc', output)
  {
    forall i | 0 <= i < |toc.entries| && WellFormed(toc, i)
      ensures WellFormed(toc', i) &&
              ReadResult(sides.codec, toc', output, i) == ReadResult(sides.codec, toc, sides.source, i)
    {
      ChunkReadsAlike(sides, toc, toc', output, i);
    }
  }

  /** What becomes of a block: if it does not stay it is compressed exactly where that makes it smaller. */
  ghost predicate Recoded(codec: Codec, toc: Toc, cas: seq<byte>, compression: Option<nat>, block: BlockEntry,
                          block': BlockEntry)
  {
    && block.Valid() && block'.Valid() && block.MethodIndex() <= |toc.methods|
    && if Stays(toc.methods, compression, block) then
         && block'.MethodIndex() == (if block.MethodIndex() == 0 then 0 else 1)
         && block'.CompressedSize() == block.CompressedSize()
       else
         var plain := Decoded(codec, toc.methods, toc.CryptKey(), cas, block);
         var compressed := if compression.Some? && plain.Some? then codec.compress(compression.value, plain.value)
                           else None;
         && plain.Some? && (compression.Some? ==> compressed.Some?)
         && if compressed.Some? && |compressed.value| < |plain.value| then
              block'.MethodIndex() == 1 && block'.CompressedSize() == |compressed.value|
            else
              block'.MethodIndex() == 0 && block'.CompressedSize() == |plain.value|
  }

  lemma {:induction false} AllRecoded(sides: Sides, toc: Toc, table: seq<BlockEntry>, output: seq<byte>,
                                          stats: Stats)
    requires sides.methods == toc.methods && sides.readKey == toc.CryptKey() && |table| == |toc.blocks|
    requires Progress(sides, table, toc.blocks, output, stats, |table|)
    requires AllRepackable(sides, toc.blockSize, toc.blocks, |table|)
    ensures TilesOutput(sides.writeKey, table, |table|, |output|)
    ensures stats.blocks == |toc.blocks| == stats.reusedBlocks + stats.recompressedBlocks
    ensures stats.outputBytes == |output|
    ensures stats.reusedBlocks == StayCount(sides.methods, sides.compression, toc.blocks, |table|)
    ensures forall k :: 0 <= k < |table| ==>
      Recoded(sides.codec, toc, sides.source, sides.compression, toc.blocks[k], table[k])
  {
    forall k | 0 <= k < |table|
      ensures Recoded(sides.codec, toc, sides.source, sides.compression, toc.blocks[k], table[k])
    {
      assert RewrittenAt(sides, table, toc.blocks, output, k);
      assert RepackableAt(sides, toc.blockSize, toc.blocks, k);
    }
  }

  function SidesOf(codec: Codec, toc: Toc, cas: seq<byte>, compression: Option<nat>, encrypted: bool,
                   writeKey: Option<nat>): Sides
  {
    Sides(codec, toc.methods, toc.CryptKey(), cas, compression, if encrypted then writeKey else None)
  }

  /** What `repack_iostore` needs: a valid block table, the keys, and blocks that can all be rewritten. */
  ghost predicate RepackPossible(codec: Codec, toc: Toc, cas: seq<byte>, compression: Option<nat>, encrypted: bool,
                                 writeKey: Option<nat>)
  {
    && toc.blockSize > 0 && (toc.blocks == [] ==> toc.entries == []) && !toc.KeyMissing() &&
       (encrypted ==> writeKey.Some?)
    && AllRepackable(SidesOf(codec, toc, cas, compression, encrypted, writeKey), toc.blockSize, toc.blocks,
                     |toc.blocks|)
  }

  /**
   * `repack_iostore` between reading the table of contents and publishing. Whatever the target codec and the keys, if
   * it succeeds then every well-formed chunk reads as before, the output blocks tile the new file and the statistics
   * add up.
   */
  method RepackIoStore(codec: Codec, toc: Toc, cas: seq<byte>, compression: Option<nat>, encrypted: bool,
                       writeKey: Option<nat>)
    returns (r: Result<Repacked>)
    requires codec.Lawful() && (forall b :: b in toc.blocks ==> b.Valid()) &&
             (forall e :: e in toc.entries ==> e.Valid())
    ensures r.Success? ==>
      toc.Valid() && r.value.toc.Valid() && r.value.toc.entries == toc.entries && r.value.toc.blockSize == toc.blockSize
    ensures r.Success? ==> ReadsAlike(codec, toc, cas, r.value.toc, r.value.cas)
    ensures r.Success? ==>
      r.value.toc.encrypted == encrypted && r.value.toc.key == writeKey &&
      r.value.toc.methods == MethodTable(compression)
    ensures r.Success? ==> TilesOutput(r.value.toc.CryptKey(), r.value.toc.blocks, |r.value.toc.blocks|, |r.value.cas|)
    ensures r.Success? ==>
      var stats := r.value.stats;
      stats.blocks == |toc.blocks| == stats.reusedBlocks + stats.recompressedBlocks &&
        stats.outputBytes == |r.value.cas|
    ensures r.Success? <==> RepackPossible(codec, toc, cas, compression, encrypted, writeKey)
    ensures r.Success? ==> |r.value.toc.blocks| == |toc.blocks|
    ensures r.Success? ==> forall k :: 0 <= k < |toc.blocks| ==>
      Recoded(codec, toc, cas, compression, toc.blocks[k], r.value.toc.blocks[k])
    ensures r.Success? ==>
      r.value.stats.reusedBlocks == StayCount(toc.methods, compression, toc.blocks, |toc.blocks|)
  {
    if toc.blockSize == 0 || (toc.blocks == [] && toc.entries != []) {
      return Failure("Direct repacking requires a valid compression block table");
    }
    if toc.KeyMissing() {
      return Failure("Missing input AES key");
    }
    if encrypted && writeKey.None? {
      return Failure("Missing output AES key");
    }
    var preserveUncompressed := compression.None? || compression.value in toc.methods;
    var sides := SidesOf(codec, toc, cas, compression, encrypted, writeKey);
    var ok, table, output, stats := RepackTable(sides, preserveUncompressed, toc.blockSize, toc.blocks);
    if !ok {
      return Failure("Invalid compression block");
    }
    var toc' := Toc(toc.blockSize, MethodTable(compression), encrypted, writeKey, table, toc.entries);
    AllReadAlike(sides, toc, toc', output);
    AllRecoded(sides, toc, table, output, stats);
    r := Success(Repacked(toc', output, stats));
  }

  // ---- Keys ----

  /** Keys by guid, guid zero being the default, and what the output is to be encrypted with and labelled as. */
  datatype KeyConfig = KeyConfig(keys: map<nat, nat>, writeKey: Option<nat>, writeGuid: Option<nat>)
  {
    /** `aes_key`. */
    function AesKey(guid: nat): Option<nat> {
      if guid in keys then Some(keys[guid]) else if 0 in keys then Some(keys[0]) else None
    }

    /** The key a container with this guid is rewritten with. */
    function KeyToWrite(guid: nat): Option<nat> {
      if writeKey.Some? then writeKey else AesKey(guid)
    }

    /** The guid of the rewritten container. */
    function GuidToWrite(guid: nat): nat {
      if writeGuid.Some? then writeGuid.value else guid
    }
  }

  /** A container as it is opened under a configuration. */
  function Opened(toc: Toc, guid: nat, config: KeyConfig): Toc {
    toc.(key := config.AesKey(guid))
  }

  /** Only the key that is used matters to a read. */
  lemma {:induction false} SameKeyReadsAlike(codec: Codec, toc: Toc, toc': Toc, toc2: Toc, cas: seq<byte>,
                                             cas': seq<byte>)
    requires codec.Lawful() && toc.Valid() && toc'.Valid() && toc2.Valid() &&
             toc'.entries == toc.entries == toc2.entries
    requires ReadsAlike(codec, toc, cas, toc', cas')
    requires toc2 == toc'.(key := toc2.key) && (toc'.encrypted ==> toc2.key == toc'.key)
    ensures ReadsAlike(codec, toc, cas, toc2, cas')
  {
    forall i | 0 <= i < |toc.entries| && WellFormed(toc, i)
      ensures WellFormed(toc2, i) && ReadResult(codec, toc2, cas', i) == ReadResult(codec, toc, cas, i)
    {
      assert BlocksOf(toc2, i) == BlocksOf(toc', i);
    }
  }

  /**
   * A repack with the keys of a configuration. Whoever opens the new container finds a key by its new guid; it reads as
   * before whenever that is the key it was written with, or when it is not encrypted.
   */
  method RepackContainer(codec: Codec, toc: Toc, guid: nat, cas: seq<byte>, compression: Option<nat>, encrypted: bool,
                         config: KeyConfig, reader: KeyConfig)
    returns (r: Result<Repacked>, guid': nat)
    requires codec.Lawful() && (forall b :: b in toc.blocks ==> b.Valid()) &&
             (forall e :: e in toc.entries ==> e.Valid())
    ensures r.Success? <==>
      RepackPossible(codec, Opened(toc, guid, config), cas, compression, encrypted, config.KeyToWrite(guid))
    ensures Opened(toc, guid, config).key ==
      if guid in config.keys then Some(config.keys[guid]) else if 0 in config.keys then Some(config.keys[0]) else None
    ensures r.Success? ==>
      r.value.toc.encrypted == encrypted &&
      r.value.toc.key == if config.writeKey.Some? then config.writeKey else Opened(toc, guid, config).key
    ensures r.Success? ==> guid' == config.GuidToWrite(guid)
    ensures r.Success? ==> toc.Valid() && r.value.toc.Valid() && r.value.toc.entries == toc.entries
    ensures r.Success? && (encrypted ==> reader.AesKey(guid') == config.KeyToWrite(guid)) ==>
      ReadsAlike(codec, Opened(toc, guid, config), cas, Opened(r.value.toc, guid', reader), r.value.cas)
  {
    var source := Opened(toc, guid, config);
    guid' := guid;
    r := RepackIoStore(codec, source, cas, compression, encrypted, config.KeyToWrite(guid));
    if r.Success? {
      if config.writeGuid.Some? {
        guid' := config.writeGuid.value;
      }
      var newToc := Opened(r.value.toc, guid', reader);
      if encrypted ==> reader.AesKey(guid') == config.KeyToWrite(guid) {
        SameKeyReadsAlike(codec, source, r.value.toc, newToc, cas, r.value.cas);
      }
    }
  }

  /** The configuration that repacked a container finds the key again exactly under these conditions. */
  lemma {:induction false} SameConfigFindsKey(config: KeyConfig, guid: nat)
    ensures config.AesKey(config.GuidToWrite(guid)) == config.KeyToWrite(guid) <==>
      match (config.writeKey, config.writeGuid)
      case (None, None) => true
      case (None, Some(g)) => config.AesKey(g) == config.AesKey(guid)
      case (Some(k), None) => config.AesKey(guid) == Some(k)
      case (Some(k), Some(g)) => config.AesKey(g) == Some(k)
  {
  }

  /** With key 2 as the default and a write key 1 of its own a configuration writes with 1 and would read with 2. */
  lemma {:induction false} WrittenKeyIsLost(guid: nat)
    ensures var config := KeyConfig(map[0 := 2], Some(1), None);
      config.KeyToWrite(guid) == Some(1) && config.AesKey(config.GuidToWrite(guid)) == Some(2)
  {
  }

  /** A container that was written chunk by chunk still reads as those chunks after a repack. */
  method RepackWritten(writer: IoStoreWriter, compression: Option<nat>, encrypted: bool, writeKey: Option<nat>)
    returns (r: Result<Repacked>)
    requires writer.Valid()
    ensures r.Success? ==> r.value.toc.Valid() && |r.value.toc.entries| == |writer.contents|
    ensures r.Success? ==> forall i :: 0 <= i < |writer.contents| && !AllEmpty(writer.contents, i + 1) ==>
      WellFormed(r.value.toc, i) && ReadResult(writer.codec, r.value.toc, r.value.cas, i) == Success(writer.contents[i])
    ensures r.Success? <==> RepackPossible(writer.codec, writer.Table(), writer.cas, compression, encrypted, writeKey)
  {
    writer.TableValid();
    r := RepackIoStore(writer.codec, writer.Table(), writer.cas, compression, encrypted, writeKey);
    if r.Success? {
      forall i | 0 <= i < |writer.contents| && !AllEmpty(writer.contents, i + 1)
        ensures WellFormed(r.value.toc, i) &&
                ReadResult(writer.codec, r.value.toc, r.value.cas, i) == Success(writer.contents[i])
      {
        writer.ContentsRead(i);
      }
    }
  }
}
