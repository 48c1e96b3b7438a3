/** Reading chunks of a container: blocks, a virtual offset space over them, and `Toc::read`. */
module Containers {
  import opened Bytes
  import opened Package
  import opened PackedFields
  import opened Codecs

  /** What `Toc::read` uses of the table of contents; compression methods and keys are opaque numbers. */
  datatype Toc = Toc(
    blockSize: nat,
    methods: seq<nat>,
    encrypted: bool,
    key: Option<nat>,
    blocks: seq<BlockEntry>,
    entries: seq<OffsetAndLength>)
  {
    ghost predicate Valid() {
      && blockSize > 0
      && (forall b :: b in blocks ==> b.Valid())
      && (forall e :: e in entries ==> e.Valid())
    }

    function CryptKey(): Option<nat> { if encrypted then key else None }

    predicate KeyMissing() { encrypted && key.None? }
  }

  // ---- One block ----

  /** The bytes a decryption covers: encrypted data is stored in whole 16-byte blocks. */
  function StoredSize(key: Option<nat>, n: nat): nat {
    if key.Some? then Align(n, 16) else n
  }

  /** The first `n` of the bytes stored at an offset, decrypted; none when the file ends before them. */
  function Stored(codec: Codec, key: Option<nat>, cas: seq<byte>, offset: nat, n: nat): Option<seq<byte>> {
    if offset + StoredSize(key, n) > |cas| then None
    else if key.None? then Some(cas[offset..offset + n])
    else
      var plain := CryptAll(codec, false, key.value, cas[offset..offset + StoredSize(key, n)]);
      if n <= |plain| then Some(plain[..n]) else None
  }

  /** Stored bytes, decompressed to a given size. */
  function Decompressed(codec: Codec, method_: nat, key: Option<nat>, cas: seq<byte>, offset: nat, n: nat, size: nat):
    Option<seq<byte>>
  {
    match Stored(codec, key, cas, offset, n)
    case None => None
    case Some(bytes) => codec.decompress(method_, bytes, size)
  }

  /** The plain bytes of a block. */
  function Decoded(codec: Codec, methods: seq<nat>, key: Option<nat>, cas: seq<byte>, block: BlockEntry):
    Option<seq<byte>>
    requires block.Valid()
  {
    if block.MethodIndex() == 0 then Stored(codec, key, cas, block.Offset(), block.UncompressedSize())
    else if block.MethodIndex() > |methods| then None
    else
      Decompressed(codec, methods[block.MethodIndex() - 1], key, cas, block.Offset(), block.CompressedSize(),
                   block.UncompressedSize())
  }

  lemma {:induction false} StoredLength(codec: Codec, key: Option<nat>, cas: seq<byte>, offset: nat, n: nat)
    requires codec.Lawful()
    ensures Stored(codec, key, cas, offset, n).Some? <==> offset + StoredSize(key, n) <= |cas|
    ensures Stored(codec, key, cas, offset, n).Some? ==> |Stored(codec, key, cas, offset, n).value| == n
  {
    AlignIsLeast(n, 16, 0);
    if key.Some? && offset + StoredSize(key, n) <= |cas| {
      CryptAllLength(codec, false, key.value, cas[offset..offset + StoredSize(key, n)]);
    }
  }

  /** Data appended to the file does not change what is stored before it. */
  lemma {:induction false} StoredStays(codec: Codec, key: Option<nat>, cas: seq<byte>, more: seq<byte>, offset: nat,
                                       n: nat)
    requires Stored(codec, key, cas, offset, n).Some?
    ensures Stored(codec, key, cas + more, offset, n) == Stored(codec, key, cas, offset, n)
  {
    var size := StoredSize(key, n);
    assert (cas + more)[offset..offset + size] == cas[offset..offset + size];
  }

  lemma {:induction false} DecodedStays(codec: Codec, methods: seq<nat>, key: Option<nat>, cas: seq<byte>,
                                        more: seq<byte>, block: BlockEntry)
    requires block.Valid() && Decoded(codec, methods, key, cas, block).Some?
    ensures Decoded(codec, methods, key, cas + more, block) == Decoded(codec, methods, key, cas, block)
  {
    if block.MethodIndex() == 0 {
      StoredStays(codec, key, cas, more, block.Offset(), block.UncompressedSize());
    } else {
      StoredStays(codec, key, cas, more, block.Offset(), block.CompressedSize());
    }
  }

  /** The plain bytes of the first `n` blocks. */
  function DecodedUpTo(codec: Codec, methods: seq<nat>, key: Option<nat>, cas: seq<byte>, blocks: seq<BlockEntry>,
                       n: nat): Option<seq<byte>>
    requires n <= |blocks| && forall b :: b in blocks ==> b.Valid()
  {
    if n == 0 then Some([])
    else
      var front := DecodedUpTo(codec, methods, key, cas, blocks, n - 1);
      var last := Decoded(codec, methods, key, cas, blocks[n - 1]);
      if front.Some? && last.Some? then Some(front.value + last.value) else None
  }

  lemma {:induction false} UndecodedStays(codec: Codec, methods: seq<nat>, key: Option<nat>, cas: seq<byte>,
                                          blocks: seq<BlockEntry>, n: nat, m: nat)
    requires n <= m <= |blocks| && forall b :: b in blocks ==> b.Valid()
    requires DecodedUpTo(codec, methods, key, cas, blocks, n).None?
    ensures DecodedUpTo(codec, methods, key, cas, blocks, m).None?
    decreases m
  {
    if n < m {
      UndecodedStays(codec, methods, key, cas, blocks, n, m - 1);
    }
  }

  lemma {:induction false} OneUndecoded(codec: Codec, methods: seq<nat>, key: Option<nat>, cas: seq<byte>,
                                        blocks: seq<BlockEntry>, j: nat)
    requires j < |blocks| && (forall b :: b in blocks ==> b.Valid()) &&
             Decoded(codec, methods, key, cas, blocks[j]).None?
    ensures DecodedUpTo(codec, methods, key, cas, blocks, |blocks|).None?
  {
    UndecodedStays(codec, methods, key, cas, blocks, j + 1, |blocks|);
  }

  // ---- A chunk ----

  ghost function PlainSize(blocks: seq<BlockEntry>, n: nat): nat
    requires n <= |blocks| && forall b :: b in blocks ==> b.Valid()
  {
    if n == 0 then 0 else PlainSize(blocks, n - 1) + blocks[n - 1].UncompressedSize()
  }

  /** The block that holds the first byte of a chunk. */
  function FirstBlock(toc: Toc, i: nat): nat
    requires toc.blockSize > 0 && i < |toc.entries| && toc.entries[i].Valid()
  {
    toc.entries[i].Offset() / toc.blockSize
  }

  /** One past the block that holds the last byte of a chunk. */
  function EndBlock(toc: Toc, i: nat): nat
    requires toc.blockSize > 0 && i < |toc.entries| && toc.entries[i].Valid()
  {
    Align(toc.entries[i].Offset() + toc.entries[i].Length(), toc.blockSize) / toc.blockSize
  }

  ghost function BlocksOf(toc: Toc, i: nat): seq<BlockEntry>
    requires toc.Valid() && i < |toc.entries| && FirstBlock(toc, i) <= EndBlock(toc, i) <= |toc.blocks|
  {
    toc.blocks[FirstBlock(toc, i)..EndBlock(toc, i)]
  }

  /** Blocks that make up exactly `size` bytes, all but the last in multiples of the cipher's block size. */
  ghost predicate Fill(blocks: seq<BlockEntry>, size: nat) {
    && (forall b :: b in blocks ==> b.Valid())
    && PlainSize(blocks, |blocks|) == size
    && forall j :: 0 <= j < |blocks| - 1 ==> blocks[j].UncompressedSize() % 16 == 0
  }

  /** A chunk whose blocks exist and make up its size, and that does not begin and end at offset zero. */
  ghost predicate WellFormed(toc: Toc, i: nat)
    requires toc.Valid() && i < |toc.entries|
  {
    && toc.entries[i].Offset() + toc.entries[i].Length() > 0
    && FirstBlock(toc, i) <= EndBlock(toc, i) <= |toc.blocks|
    && Fill(BlocksOf(toc, i), toc.entries[i].Length())
  }

  lemma {:induction false} LastBlockIndex(value: nat, blockSize: nat)
    requires blockSize > 0 && value > 0
    ensures Align(value, blockSize) > 0
    ensures (Align(value, blockSize) - 1) / blockSize + 1 == Align(value, blockSize) / blockSize
  {
    AlignIsLeast(value, blockSize, 0);
    var q := (value + blockSize - 1) / blockSize;
    assert Align(value, blockSize) == blockSize * q + 0;
    DivisionUnique(Align(value, blockSize), blockSize, q, 0);
    MulBound(blockSize, q);
    assert q >= 1;
    assert Align(value, blockSize) - 1 == blockSize * (q - 1) + (blockSize - 1);
    DivisionUnique(Align(value, blockSize) - 1, blockSize, q - 1, blockSize - 1);
  }

  lemma {:induction false} PlainSizeGrows(blocks: seq<BlockEntry>, n: nat, m: nat)
    requires n <= m <= |blocks| && forall b :: b in blocks ==> b.Valid()
    ensures PlainSize(blocks, n) <= PlainSize(blocks, m)
    decreases m
  {
    if n < m {
      PlainSizeGrows(blocks, n, m - 1);
    }
  }

  lemma {:induction false} PlainSizeAligned(blocks: seq<BlockEntry>, size: nat, n: nat)
    requires Fill(blocks, size) && n < |blocks|
    ensures PlainSize(blocks, n) % 16 == 0
  {
    if n > 0 {
      PlainSizeAligned(blocks, size, n - 1);
    }
  }

  /** Room the output needs from `at` on for a block; a raw encrypted block is read in whole 16-byte blocks. */
  function Room(key: Option<nat>, block: BlockEntry): nat
    requires block.Valid()
  {
    if block.MethodIndex() == 0 then StoredSize(key, block.UncompressedSize()) else block.UncompressedSize()
  }

  /** Rounded-up reads stay inside the output buffer. */
  lemma {:induction false} RoundedReadsFit(key: Option<nat>, blocks: seq<BlockEntry>, size: nat, n: nat)
    requires Fill(blocks, size) && n < |blocks|
    ensures PlainSize(blocks, n) + Room(key, blocks[n]) <= Align(size, 16)
  {
    PlainSizeGrows(blocks, n + 1, |blocks|);
    PlainSizeAligned(blocks, size, n);
    RoundUpFits(PlainSize(blocks, n), blocks[n].UncompressedSize(), size);
  }

  lemma {:induction false} RoundUpFits(at: nat, n: nat, size: nat)
    requires at % 16 == 0 && at + n <= size
    ensures at + n <= at + Align(n, 16) <= Align(size, 16)
  {
  }

  // ---- Toc::read ----

  /** `read_exact` at an offset of the file into a stretch of a buffer. */
  method ReadExact(cas: seq<byte>, offset: nat, a: array<byte>, from: nat, n: nat) returns (ok: bool)
    requires from + n <= a.Length
    modifies a
    ensures ok <==> offset + n <= |cas|
    ensures ok ==> a[from..from + n] == cas[offset..offset + n]
    ensures forall i :: 0 <= i < a.Length && !(from <= i < from + n) ==> a[i] == old(a[i])
  {
    ok := offset + n <= |cas|;
    if ok {
      forall i | 0 <= i < n {
        a[from + i] := cas[offset + i];
      }
    }
  }

  /** Reads and decrypts stored bytes into a buffer; `room` bytes from `from` on are overwritten. */
  method ReadStored(codec: Codec, key: Option<nat>, cas: seq<byte>, offset: nat, n: nat, a: array<byte>, from: nat)
    returns (ok: bool)
    requires codec.Lawful() && from + StoredSize(key, n) <= a.Length
    modifies a
    ensures ok <==> Stored(codec, key, cas, offset, n).Some?
    ensures ok ==> n <= StoredSize(key, n) && Stored(codec, key, cas, offset, n) == Some(a[from..from + n])
    ensures a[..from] == old(a[..from])
  {
    var size := StoredSize(key, n);
    AlignIsLeast(n, 16, 0);
    StoredLength(codec, key, cas, offset, n);
    ghost var before := a[..from];
    ok := ReadExact(cas, offset, a, from, size);
    assert a[..from] == before;
    if ok && key.Some? {
      ghost var read := a[..];
      assert read[from..from + size] == cas[offset..offset + size];
      CryptInPlace(codec, false, key.value, a, from, from + size);
      CryptAllLength(codec, false, key.value, cas[offset..offset + size]);
      CryptedStretch(codec, key.value, read, from, size, n);
      assert a[..from] == before;
      assert a[from..from + n] == a[..][from..from + n];
    }
  }

  lemma {:induction false} CryptedStretch(codec: Codec, key: nat, s: seq<byte>, from: nat, size: nat, n: nat)
    requires from + size <= |s| && n <= size == |CryptAll(codec, false, key, s[from..from + size])|
    ensures var after := CryptedUpTo(codec, false, key, s, from, from + size);
      |after| == |s| && after[..from] == s[..from] &&
        after[from..from + n] == CryptAll(codec, false, key, s[from..from + size])[..n]
  {
  }

  /** A compressed block goes through the temporary buffer. */
  method ReadCompressed(codec: Codec, method_: nat, key: Option<nat>, cas: seq<byte>, offset: nat, n: nat, size: nat,
                        data: array<byte>, cur: nat, buffer: array<byte>)
    returns (ok: bool)
    requires codec.Lawful() && data != buffer && StoredSize(key, n) <= buffer.Length
    modifies data, buffer
    ensures ok ==> cur + size <= data.Length && data[..cur] == old(data[..cur])
    ensures ok ==> Decompressed(codec, method_, key, cas, offset, n, size) == Some(data[cur..cur + size])
    ensures !ok && cur + size <= data.Length ==> Decompressed(codec, method_, key, cas, offset, n, size).None?
  {
    ok := ReadStored(codec, key, cas, offset, n, buffer, 0);
    if !ok || cur + size > data.Length {
      return false;
    }
    assert buffer[0..n] == buffer[..n];
    var plain := codec.decompress(method_, buffer[..n], size);
    if plain.None? {
      return false;
    }
    forall i | 0 <= i < size {
      data[cur + i] := plain.value[i];
    }
    assert data[cur..cur + size] == plain.value;
  }

  /** One block into the output at the cursor. Fails where the original would panic or return an error. */
  method ReadBlock(codec: Codec, methods: seq<nat>, key: Option<nat>, cas: seq<byte>, block: BlockEntry,
                   data: array<byte>, cur: nat, buffer: array<byte>)
    returns (ok: bool)
    requires codec.Lawful() && block.Valid() && data != buffer &&
             StoredSize(key, block.CompressedSize()) <= buffer.Length
    modifies data, buffer
    ensures ok ==> cur + block.UncompressedSize() <= data.Length && data[..cur] == old(data[..cur])
    ensures ok ==> Decoded(codec, methods, key, cas, block) == Some(data[cur..cur + block.UncompressedSize()])
    ensures !ok && cur + Room(key, block) <= data.Length ==> Decoded(codec, methods, key, cas, block).None?
  {
    var size := block.UncompressedSize();
    if block.MethodIndex() == 0 {
      AlignIsLeast(size, 16, 0);
      if cur + StoredSize(key, size) > data.Length {
        return false;
      }
      ok := ReadStored(codec, key, cas, block.Offset(), size, data, cur);
    } else if block.MethodIndex() > |methods| {
      ok := false;
    } else {
      ok := ReadCompressed(codec, methods[block.MethodIndex() - 1], key, cas, block.Offset(), block.CompressedSize(),
                           size, data, cur, buffer);
    }
  }

  /** The largest temporary buffer that a compressed block needs. */
  method BufferSize(key: Option<nat>, blocks: seq<BlockEntry>) returns (n: nat)
    requires forall b :: b in blocks ==> b.Valid()
    ensures forall j :: 0 <= j < |blocks| ==> StoredSize(key, blocks[j].CompressedSize()) <= n
  {
    n := 0;
    for j := 0 to |blocks|
      invariant forall k :: 0 <= k < j ==> StoredSize(key, blocks[k].CompressedSize()) <= n
    {
      var size := Align(blocks[j].CompressedSize(), 16);
      AlignIsLeast(blocks[j].CompressedSize(), 16, 0);
      n := if size > n then size else n;
    }
  }

  /** The next block, given that the blocks before it have been read. */
  method ReadNext(codec: Codec, methods: seq<nat>, key: Option<nat>, cas: seq<byte>, blocks: seq<BlockEntry>,
                  size: nat, j: nat, data: array<byte>, cur: nat, buffer: array<byte>)
    returns (ok: bool, cur': nat)
    requires codec.Lawful() && (forall b :: b in blocks ==> b.Valid()) && data.Length == Align(size, 16)
    requires j < |blocks| && data != buffer && StoredSize(key, blocks[j].CompressedSize()) <= buffer.Length
    requires cur == PlainSize(blocks, j) <= data.Length &&
             DecodedUpTo(codec, methods, key, cas, blocks, j) == Some(data[..cur])
    modifies data, buffer
    ensures ok ==> cur' == PlainSize(blocks, j + 1) <= data.Length
    ensures ok ==> DecodedUpTo(codec, methods, key, cas, blocks, j + 1) == Some(data[..cur'])
    ensures !ok && Fill(blocks, size) ==> DecodedUpTo(codec, methods, key, cas, blocks, |blocks|).None?
  {
    ghost var front := data[..cur];
    ok := ReadBlock(codec, methods, key, cas, blocks[j], data, cur, buffer);
    cur' := cur + blocks[j].UncompressedSize();
    if ok {
      assert data[..cur'] == front + data[cur..cur'];
    } else if Fill(blocks, size) {
      RoundedReadsFit(key, blocks, size, j);
      OneUndecoded(codec, methods, key, cas, blocks, j);
    }
  }

  /** All blocks of a chunk, one after the other. */
  method ReadBlocks(codec: Codec, methods: seq<nat>, key: Option<nat>, cas: seq<byte>, blocks: seq<BlockEntry>,
                    size: nat, data: array<byte>)
    returns (ok: bool)
    requires codec.Lawful() && (forall b :: b in blocks ==> b.Valid()) && data.Length == Align(size, 16) >= size
    modifies data
    ensures Fill(blocks, size) ==> (ok <==> DecodedUpTo(codec, methods, key, cas, blocks, |blocks|).Some?)
    ensures Fill(blocks, size) && ok ==> DecodedUpTo(codec, methods, key, cas, blocks, |blocks|) == Some(data[..size])
  {
    var bufferSize := BufferSize(key, blocks);
    var buffer := new byte[bufferSize];
    var cur := 0;
    ok := true;
    for j := 0 to |blocks|
      invariant cur == PlainSize(blocks, j) <= data.Length
      invariant DecodedUpTo(codec, methods, key, cas, blocks, j) == Some(data[..cur])
      invariant ok
    {
      ok, cur := ReadNext(codec, methods, key, cas, blocks, size, j, data, cur, buffer);
      if !ok {
        return;
      }
    }
  }

  /** What reading the blocks of a chunk means. */
  ghost function BlocksResult(codec: Codec, methods: seq<nat>, key: Option<nat>, cas: seq<byte>,
                              blocks: seq<BlockEntry>): Result<seq<byte>>
    requires forall b :: b in blocks ==> b.Valid()
  {
    match DecodedUpTo(codec, methods, key, cas, blocks, |blocks|)
    case None => Failure("block cannot be read")
    case Some(data) => Success(data)
  }

  method ReadRange(codec: Codec, methods: seq<nat>, key: Option<nat>, cas: seq<byte>, blocks: seq<BlockEntry>,
                   size: nat)
    returns (r: Result<seq<byte>>)
    requires codec.Lawful() && forall b :: b in blocks ==> b.Valid()
    ensures Fill(blocks, size) ==> r == BlocksResult(codec, methods, key, cas, blocks)
  {
    AlignIsLeast(size, 16, 0);
    var data := new byte[Align(size, 16)](_ => 0);
    var ok := ReadBlocks(codec, methods, key, cas, blocks, size, data);
    r := if ok then Success(data[..size]) else Failure("block cannot be read");
  }

  /** The first and the last block of a chunk. */
  method BlockRange(offset: nat, size: nat, blockSize: nat) returns (first: nat, last: nat)
    requires blockSize > 0 && offset + size > 0
    ensures first == offset / blockSize && last + 1 == Align(offset + size, blockSize) / blockSize
  {
    LastBlockIndex(offset + size, blockSize);
    first := offset / blockSize;
    last := (Align(offset + size, blockSize) - 1) / blockSize;
  }

  /**
   * `Toc::read`. For a well-formed chunk it succeeds exactly when the key is known and every block can be decoded,
   * and then returns the plain bytes of the blocks one after the other.
   */
  method ReadChunk(codec: Codec, toc: Toc, cas: seq<byte>, i: nat) returns (r: Result<seq<byte>>)
    requires codec.Lawful() && toc.Valid() && i < |toc.entries|
    ensures toc.entries[i].Offset() + toc.entries[i].Length() == 0 ==> r.Failure?
    ensures WellFormed(toc, i) ==> r == ReadResult(codec, toc, cas, i)
  {
    if toc.entries[i].Offset() + toc.entries[i].Length() == 0 {
      return Failure("attempt to subtract with overflow");
    }
    var first, last := BlockRange(toc.entries[i].Offset(), toc.entries[i].Length(), toc.blockSize);
    if last + 1 > |toc.blocks| || first > last + 1 {
      return Failure("block range out of bounds");
    }
    if toc.KeyMissing() {
      return Failure("container is encrypted but no AES key supplied");
    }
    r := ReadRange(codec, toc.methods, toc.CryptKey(), cas, toc.blocks[first..last + 1], toc.entries[i].Length());
  }

  /** What reading a well-formed chunk means. */
  ghost function ReadResult(codec: Codec, toc: Toc, cas: seq<byte>, i: nat): Result<seq<byte>>
    requires toc.Valid() && i < |toc.entries| && WellFormed(toc, i)
  {
    if toc.KeyMissing() then Failure("container is encrypted but no AES key supplied")
    else BlocksResult(codec, toc.methods, toc.CryptKey(), cas, BlocksOf(toc, i))
  }
}
