/** Writing chunks into a container, and reading back what was written. */
module ContainerWriter {
  import opened Bytes
  import opened Package
  import opened PackedFields
  import opened Codecs
  import opened Containers

  const BLOCK_SIZE: nat := 0x20000

  /** Stands for the key that obfuscation uses when no key is given. */
  const DEFAULT_AES_KEY: nat := 0

  // ---- How data is cut into blocks ----

  function Pieces(n: nat): nat { (n + BLOCK_SIZE - 1) / BLOCK_SIZE }

  /** End of piece `j` of `n` bytes of data. */
  function Cut(n: nat, j: nat): (r: nat)
    ensures r <= n
  {
    if j * BLOCK_SIZE <= n then j * BLOCK_SIZE else n
  }

  function Piece(data: seq<byte>, j: nat): seq<byte> {
    data[Cut(|data|, j)..Cut(|data|, j + 1)]
  }

  // ---- What a container holds ----

  /** Block `k` decodes to the given piece. */
  ghost predicate HoldsPiece(codec: Codec, methods: seq<nat>, key: Option<nat>, cas: seq<byte>,
                             blocks: seq<BlockEntry>, k: nat, piece: seq<byte>)
  {
    && k < |blocks| && blocks[k].Valid()
    && blocks[k].UncompressedSize() == |piece|
    && Decoded(codec, methods, key, cas, blocks[k]) == Some(piece)
  }

  /** The blocks from `first` on decode to the first `n` pieces of the data. */
  ghost predicate HoldsPieces(codec: Codec, methods: seq<nat>, key: Option<nat>, cas: seq<byte>,
                              blocks: seq<BlockEntry>, first: nat, data: seq<byte>, n: nat)
  {
    && first + n <= |blocks|
    && forall j: nat :: j < n ==> HoldsPiece(codec, methods, key, cas, blocks, first + j, Piece(data, j))
  }

  ghost predicate HoldsChunk(codec: Codec, methods: seq<nat>, key: Option<nat>, cas: seq<byte>, blocks: seq<BlockEntry>,
                             entry: OffsetAndLength, data: seq<byte>) {
    && entry.Valid() && entry.Length() == |data| && entry.Offset() % BLOCK_SIZE == 0
    && HoldsPieces(codec, methods, key, cas, blocks, entry.Offset() / BLOCK_SIZE, data, Pieces(|data|))
  }

  lemma {:induction false} PieceStays(codec: Codec, methods: seq<nat>, key: Option<nat>, cas: seq<byte>,
                                      blocks: seq<BlockEntry>, cas': seq<byte>, blocks': seq<BlockEntry>, k: nat,
                                      piece: seq<byte>)
    requires HoldsPiece(codec, methods, key, cas, blocks, k, piece) && cas <= cas' && blocks <= blocks'
    ensures HoldsPiece(codec, methods, key, cas', blocks', k, piece)
  {
    assert blocks'[k] == blocks[k];
    assert cas' == cas + cas'[|cas|..];
    DecodedStays(codec, methods, key, cas, cas'[|cas|..], blocks[k]);
  }

  lemma {:induction false} PiecesStay(codec: Codec, methods: seq<nat>, key: Option<nat>, cas: seq<byte>,
                                      blocks: seq<BlockEntry>, cas': seq<byte>, blocks': seq<BlockEntry>, first: nat,
                                      data: seq<byte>, n: nat)
    requires HoldsPieces(codec, methods, key, cas, blocks, first, data, n) && cas <= cas' && blocks <= blocks'
    ensures HoldsPieces(codec, methods, key, cas', blocks', first, data, n)
  {
    forall j: nat | j < n ensures HoldsPiece(codec, methods, key, cas', blocks', first + j, Piece(data, j)) {
      PieceStays(codec, methods, key, cas, blocks, cas', blocks', first + j, Piece(data, j));
    }
  }

  // ---- Reading back ----

  /** Pieces decoded one after the other give the data up to the cut. */
  lemma {:induction false} PiecesDecode(codec: Codec, methods: seq<nat>, key: Option<nat>, cas: seq<byte>,
                                        blocks: seq<BlockEntry>, first: nat, data: seq<byte>, part: seq<BlockEntry>,
                                        n: nat)
    requires HoldsPieces(codec, methods, key, cas, blocks, first, data, |part|) && part == blocks[first..first + |part|]
    requires n <= |part| && forall b :: b in part ==> b.Valid()
    ensures PlainSize(part, n) == Cut(|data|, n)
    ensures DecodedUpTo(codec, methods, key, cas, part, n) == Some(data[..Cut(|data|, n)])
  {
    if n > 0 {
      PiecesDecode(codec, methods, key, cas, blocks, first, data, part, n - 1);
      assert HoldsPiece(codec, methods, key, cas, blocks, first + (n - 1), Piece(data, n - 1));
      assert part[n - 1] == blocks[first + (n - 1)];
      assert data[..Cut(|data|, n)] == data[..Cut(|data|, n - 1)] + Piece(data, n - 1);
    }
  }

  lemma {:induction false} PartValid(codec: Codec, methods: seq<nat>, key: Option<nat>, cas: seq<byte>,
                                     blocks: seq<BlockEntry>, first: nat, data: seq<byte>, part: seq<BlockEntry>)
    requires HoldsPieces(codec, methods, key, cas, blocks, first, data, |part|) && part == blocks[first..first + |part|]
    ensures forall b :: b in part ==> b.Valid()
  {
    forall b | b in part ensures b.Valid() {
      var j :| 0 <= j < |part| && part[j] == b;
      assert HoldsPiece(codec, methods, key, cas, blocks, first + j, Piece(data, j));
    }
  }

  /** All pieces of a chunk fill its size. */
  lemma {:induction false} PiecesFill(codec: Codec, methods: seq<nat>, key: Option<nat>, cas: seq<byte>,
                                      blocks: seq<BlockEntry>, first: nat, data: seq<byte>, part: seq<BlockEntry>)
    requires HoldsPieces(codec, methods, key, cas, blocks, first, data, |part|) && part == blocks[first..first + |part|]
    requires |part| == Pieces(|data|)
    ensures Fill(part, |data|)
  {
    PartValid(codec, methods, key, cas, blocks, first, data, part);
    PiecesDecode(codec, methods, key, cas, blocks, first, data, part, |part|);
    forall j | 0 <= j < |part| - 1 ensures part[j].UncompressedSize() % 16 == 0 {
      assert HoldsPiece(codec, methods, key, cas, blocks, first + j, Piece(data, j));
      assert part[j] == blocks[first + j];
    }
  }

  lemma {:induction false} BlockRange(first: nat, n: nat)
    ensures Align(first * BLOCK_SIZE + n, BLOCK_SIZE) / BLOCK_SIZE == first + Pieces(n)
  {
  }

  /** A chunk that a container holds is well formed and reads as its data, unless it starts at zero and is empty. */
  lemma {:induction false} HeldChunkReads(codec: Codec, toc: Toc, cas: seq<byte>, i: nat, data: seq<byte>)
    requires toc.Valid() && i < |toc.entries| && toc.blockSize == BLOCK_SIZE && !toc.KeyMissing()
    requires HoldsChunk(codec, toc.methods, toc.CryptKey(), cas, toc.blocks, toc.entries[i], data)
    requires toc.entries[i].Offset() + |data| > 0
    ensures WellFormed(toc, i) && ReadResult(codec, toc, cas, i) == Success(data)
  {
    var first := toc.entries[i].Offset() / BLOCK_SIZE;
    BlockRange(first, |data|);
    var part := toc.blocks[first..first + Pieces(|data|)];
    assert part == BlocksOf(toc, i);
    PiecesFill(codec, toc.methods, toc.CryptKey(), cas, toc.blocks, first, data, part);
    PiecesDecode(codec, toc.methods, toc.CryptKey(), cas, toc.blocks, first, data, part, |part|);
    assert data[..|data|] == data;
  }

  // ---- Writing ----

  lemma {:induction false} EntryOf(start: nat, length: nat)
    requires start * BLOCK_SIZE < OFFSET_LIMIT && length < OFFSET_LIMIT
    ensures var e := NewOffsetAndLength(start * BLOCK_SIZE, length);
      e.Offset() == start * BLOCK_SIZE && e.Length() == length
  {
    OffsetAndLengthHolds(start * BLOCK_SIZE, length);
    KeepsField(start * BLOCK_SIZE);
    KeepsField(length);
  }

  lemma {:induction false} KeepsField(v: nat)
    requires v < OFFSET_LIMIT
    ensures v % OFFSET_LIMIT == v
  {
  }

  lemma {:induction false} BlockMultiple(start: nat)
    ensures start * BLOCK_SIZE % BLOCK_SIZE == 0 && start * BLOCK_SIZE / BLOCK_SIZE == start
  {
  }

  /** Blocks that the first `i` chunks take. */
  ghost function BlocksBefore(contents: seq<seq<byte>>, i: nat): nat
    requires i <= |contents|
  {
    if i == 0 then 0 else BlocksBefore(contents, i - 1) + Pieces(|contents[i - 1]|)
  }

  lemma {:induction false} BlocksBeforeAppend(contents: seq<seq<byte>>, data: seq<byte>, i: nat)
    requires i <= |contents|
    ensures BlocksBefore(contents + [data], i) == BlocksBefore(contents, i)
  {
    if i > 0 {
      BlocksBeforeAppend(contents, data, i - 1);
    }
  }

  ghost predicate AllEmpty(contents: seq<seq<byte>>, i: nat)
    requires i <= |contents|
  {
    forall j :: 0 <= j < i ==> contents[j] == []
  }

  lemma {:induction false} NoBlocksBefore(contents: seq<seq<byte>>, i: nat)
    requires i <= |contents|
    ensures BlocksBefore(contents, i) == 0 <==> AllEmpty(contents, i)
  {
    if i > 0 {
      NoBlocksBefore(contents, i - 1);
    }
  }

  /** Bytes that a reader finds at the start of `written`. */
  ghost predicate StoredIn(codec: Codec, key: Option<nat>, written: seq<byte>, bytes: seq<byte>) {
    |written| == StoredSize(key, |bytes|) && Stored(codec, key, written, 0, |bytes|) == Some(bytes)
  }

  /** The bytes of a block as written: encrypted in whole 16-byte blocks when there is a key. */
  method Obfuscate(codec: Codec, key: Option<nat>, bytes: seq<byte>) returns (written: seq<byte>)
    requires codec.Lawful()
    ensures StoredIn(codec, key, written, bytes)
  {
    if key.None? {
      assert bytes[0..|bytes|] == bytes;
      return bytes;
    }
    AlignIsLeast(|bytes|, 16, 0);
    var padded := bytes + seq(Align(|bytes|, 16) - |bytes|, _ => 0);
    var buffer := new byte[|padded|](i requires 0 <= i < |padded| => padded[i]);
    assert buffer[..] == padded;
    CryptInPlace(codec, true, key.value, buffer, 0, |padded|);
    written := buffer[..];
    WholeBuffer(codec, key.value, padded);
    EncryptedIsStored(codec, key.value, padded, bytes);
  }

  lemma {:induction false} WholeBuffer(codec: Codec, key: nat, padded: seq<byte>)
    ensures CryptedUpTo(codec, true, key, padded, 0, |padded|) == CryptAll(codec, true, key, padded)
  {
    assert padded[0..|padded|] == padded;
  }

  lemma {:induction false} EncryptedIsStored(codec: Codec, key: nat, padded: seq<byte>, bytes: seq<byte>)
    requires codec.Lawful() && bytes <= padded && |padded| == Align(|bytes|, 16)
    ensures StoredIn(codec, Some(key), CryptAll(codec, true, key, padded), bytes)
  {
    var written := CryptAll(codec, true, key, padded);
    CryptAllLength(codec, true, key, padded);
    DecryptInvertsEncrypt(codec, key, padded);
    AlignIsLeast(|bytes|, 16, 0);
    assert written[0..|padded|] == written;
    assert padded[..|bytes|] == bytes;
  }

  lemma {:induction false} StoredBehind(codec: Codec, key: Option<nat>, cas: seq<byte>, written: seq<byte>,
                                        bytes: seq<byte>)
    requires StoredIn(codec, key, written, bytes)
    ensures Stored(codec, key, cas + written, |cas|, |bytes|) == Some(bytes)
  {
    assert (cas + written)[|cas|..|cas| + |written|] == written[0..|written|];
  }

  /** The bytes to store for a block: what compression makes of it if that is smaller, otherwise the block itself. */
  ghost predicate Encodes(codec: Codec, method_: Option<nat>, bytes: seq<byte>, index: byte, block: seq<byte>) {
    && |bytes| <= |block|
    && (index == 0 ==> bytes == block)
    && (index != 0 ==>
        index == 1 && method_.Some? && |bytes| < |block| &&
        codec.decompress(method_.value, bytes, |block|) == Some(block))
  }

  /** The block is stored as it is or can be compressed. */
  ghost predicate Encodable(codec: Codec, method_: Option<nat>, block: seq<byte>) {
    method_.Some? ==> codec.compress(method_.value, block).Some?
  }

  /** The first `n` blocks of the data are. */
  ghost predicate AllEncodable(codec: Codec, method_: Option<nat>, data: seq<byte>, n: nat) {
    forall j: nat :: j < n ==> Encodable(codec, method_, Piece(data, j))
  }

  /** The block is recorded as compressed, with the size of its compressed form, exactly where that is smaller. */
  ghost predicate Chosen(codec: Codec, method_: Option<nat>, block: seq<byte>, entry: BlockEntry) {
    && entry.Valid() && entry.UncompressedSize() == |block|
    && var compressed := if method_.Some? then codec.compress(method_.value, block) else None;
       if compressed.Some? && |compressed.value| < |block| then
         entry.MethodIndex() == 1 && entry.CompressedSize() == |compressed.value|
       else
         entry.MethodIndex() == 0 && entry.CompressedSize() == |block|
  }

  /** Block `first + j` is, as a block of piece `j`. */
  ghost predicate PieceChosen(codec: Codec, method_: Option<nat>, blocks: seq<BlockEntry>, first: nat, data: seq<byte>,
                              j: nat)
  {
    first + j < |blocks| && Chosen(codec, method_, Piece(data, j), blocks[first + j])
  }

  ghost predicate PiecesChosen(codec: Codec, method_: Option<nat>, blocks: seq<BlockEntry>, first: nat, data: seq<byte>,
                               n: nat)
  {
    forall j: nat :: j < n ==> PieceChosen(codec, method_, blocks, first, data, j)
  }

  lemma {:induction false} OneMoreChosen(codec: Codec, method_: Option<nat>, blocks: seq<BlockEntry>, entry: BlockEntry,
                                         first: nat, data: seq<byte>, n: nat)
    requires PiecesChosen(codec, method_, blocks, first, data, n) && |blocks| == first + n
    requires Chosen(codec, method_, Piece(data, n), entry)
    ensures PiecesChosen(codec, method_, blocks + [entry], first, data, n + 1)
  {
    forall j: nat | j < n + 1 ensures PieceChosen(codec, method_, blocks + [entry], first, data, j) {
      assert j < n ==> PieceChosen(codec, method_, blocks, first, data, j);
    }
  }

  method Encode(codec: Codec, method_: Option<nat>, block: seq<byte>) returns (ok: bool, bytes: seq<byte>, index: byte)
    requires codec.Lawful()
    ensures ok ==> Encodes(codec, method_, bytes, index, block)
    ensures ok <==> Encodable(codec, method_, block)
    ensures ok && index == 0 && method_.Some? ==> |codec.compress(method_.value, block).value| >= |block|
    ensures ok && index == 1 ==> codec.compress(method_.value, block) == Some(bytes)
  {
    ok, bytes, index := true, block, 0;
    if method_.Some? {
      var compressed := codec.compress(method_.value, block);
      if compressed.None? {
        return false, [], 0;
      }
      if |compressed.value| < |block| {
        bytes, index := compressed.value, 1;
      }
    }
  }

  /** A block entry with room for its fields. */
  ghost predicate EntryFor(entry: BlockEntry, offset: nat, compressedSize: nat, uncompressedSize: nat, index: byte) {
    && entry.Valid() && entry.Offset() == offset && entry.CompressedSize() == compressedSize
    && entry.UncompressedSize() == uncompressedSize && entry.MethodIndex() == index
  }

  lemma {:induction false} EntryFits(offset: nat, compressedSize: nat, uncompressedSize: nat, index: byte)
    requires offset < OFFSET_LIMIT && compressedSize < SIZE_LIMIT && uncompressedSize < SIZE_LIMIT
    ensures EntryFor(NewBlockEntry(offset, compressedSize, uncompressedSize, index), offset, compressedSize,
                     uncompressedSize, index)
  {
    BlockEntryHolds(offset, compressedSize, uncompressedSize, index);
  }

  /** A block entry for encoded bytes decodes to the block. */
  lemma {:induction false} EncodedDecodes(codec: Codec, methods: seq<nat>, key: Option<nat>, cas: seq<byte>,
                                          method_: Option<nat>, offset: nat, bytes: seq<byte>, index: byte,
                                          block: seq<byte>, entry: BlockEntry)
    requires Encodes(codec, method_, bytes, index, block) && (method_.Some? ==> methods == [method_.value])
    requires EntryFor(entry, offset, |bytes|, |block|, index) && Stored(codec, key, cas, offset, |bytes|) == Some(bytes)
    ensures Decoded(codec, methods, key, cas, entry) == Some(block)
  {
  }

  /** Chunk `i` is in its blocks, and its offset is where block `b` covers the bytes from `b * BLOCK_SIZE` on. */
  ghost predicate HeldAt(codec: Codec, methods: seq<nat>, key: Option<nat>, cas: seq<byte>, blocks: seq<BlockEntry>,
                         entries: seq<OffsetAndLength>, contents: seq<seq<byte>>, i: nat)
    requires i < |entries| == |contents|
  {
    && HoldsChunk(codec, methods, key, cas, blocks, entries[i], contents[i])
    && entries[i].Offset() == BlocksBefore(contents, i) * BLOCK_SIZE
  }

  ghost predicate AllHeld(codec: Codec, methods: seq<nat>, key: Option<nat>, cas: seq<byte>, blocks: seq<BlockEntry>,
                          entries: seq<OffsetAndLength>, contents: seq<seq<byte>>) {
    && |entries| == |contents| && |blocks| == BlocksBefore(contents, |contents|)
    && forall i: nat :: i < |entries| ==> HeldAt(codec, methods, key, cas, blocks, entries, contents, i)
  }

  lemma {:induction false} HeldAtStays(codec: Codec, methods: seq<nat>, key: Option<nat>, cas: seq<byte>,
                                       blocks: seq<BlockEntry>, entries: seq<OffsetAndLength>,
                                       contents: seq<seq<byte>>, cas': seq<byte>, blocks': seq<BlockEntry>,
                                       entry: OffsetAndLength, data: seq<byte>, i: nat)
    requires i < |entries| == |contents| && cas <= cas' && blocks <= blocks' &&
             HeldAt(codec, methods, key, cas, blocks, entries, contents, i)
    ensures HeldAt(codec, methods, key, cas', blocks', entries + [entry], contents + [data], i)
  {
    BlocksBeforeAppend(contents, data, i);
    PiecesStay(codec, methods, key, cas, blocks, cas', blocks', entries[i].Offset() / BLOCK_SIZE, contents[i],
               Pieces(|contents[i]|));
  }

  /** A chunk in new blocks joins those that are held. */
  lemma {:induction false} AllHeldAppend(codec: Codec, methods: seq<nat>, key: Option<nat>, cas: seq<byte>,
                                         blocks: seq<BlockEntry>, entries: seq<OffsetAndLength>,
                                         contents: seq<seq<byte>>, cas': seq<byte>, blocks': seq<BlockEntry>,
                                         entry: OffsetAndLength, data: seq<byte>)
    requires AllHeld(codec, methods, key, cas, blocks, entries, contents) && cas <= cas' && blocks <= blocks'
    requires HoldsChunk(codec, methods, key, cas', blocks', entry, data) && entry.Offset() == |blocks| * BLOCK_SIZE
    requires |blocks'| == |blocks| + Pieces(|data|)
    ensures AllHeld(codec, methods, key, cas', blocks', entries + [entry], contents + [data])
  {
    BlocksBeforeAppend(contents, data, |contents|);
    forall i: nat | i < |entries| + 1
      ensures HeldAt(codec, methods, key, cas', blocks', entries + [entry], contents + [data], i) {
      if i < |entries| {
        HeldAtStays(codec, methods, key, cas, blocks, entries, contents, cas', blocks', entry, data, i);
      }
    }
  }

  class IoStoreWriter {
    const codec: Codec
    const compression: Option<nat>
    const obfuscated: bool
    const aesKey: Option<nat>
    var methods: seq<nat>
    var cas: seq<byte>
    var casOffset: nat
    var blocks: seq<BlockEntry>
    var entries: seq<OffsetAndLength>
    ghost var contents: seq<seq<byte>>

    function WriteKey(): Option<nat> {
      if !obfuscated then None else if aesKey.Some? then aesKey else Some(DEFAULT_AES_KEY)
    }

    /** The table of contents as a reader with the right key sees it. */
    function Table(): Toc
      reads this
    {
      Toc(BLOCK_SIZE, methods, obfuscated, WriteKey(), blocks, entries)
    }

    /** Blocks follow each other in the file, none larger than the block size. */
    ghost predicate Tidy()
      reads this
    {
      && casOffset == |cas| <= |blocks| * BLOCK_SIZE
      && (forall b :: b in blocks ==> b.Valid())
      && methods == (if compression.Some? then [compression.value] else [])
      && codec.Lawful()
    }

    /** The chunk table says what was written, in the blocks it was written to. */
    ghost predicate Valid()
      reads this
    {
      Tidy() && AllHeld(codec, methods, WriteKey(), cas, blocks, entries, contents)
    }

    constructor (codec: Codec, compression: Option<nat>, obfuscated: bool, aesKey: Option<nat>)
      requires codec.Lawful()
      ensures Valid() && contents == [] && blocks == []
      ensures this.codec == codec && this.compression == compression && this.obfuscated == obfuscated &&
              this.aesKey == aesKey
    {
      this.codec, this.compression, this.obfuscated, this.aesKey := codec, compression, obfuscated, aesKey;
      methods := if compression.Some? then [compression.value] else [];
      cas, casOffset, blocks, entries, contents := [], 0, [], [], [];
    }

    /** One block: compressed if that makes it smaller, padded and encrypted if the container is obfuscated. */
    method WriteBlock(block: seq<byte>, method_: Option<nat>, offset: nat) returns (ok: bool, end: nat)
      requires Tidy() && offset == casOffset < OFFSET_LIMIT && 0 < |block| <= BLOCK_SIZE
      requires method_.Some? ==> method_ == compression
      modifies this`cas, this`casOffset, this`blocks
      ensures ok <==> Encodable(codec, method_, block)
      ensures ok ==> Tidy() && end == casOffset
      ensures ok ==> old(cas) <= cas && old(blocks) <= blocks && |blocks| == old(|blocks|) + 1
      ensures ok ==> HoldsPiece(codec, methods, WriteKey(), cas, blocks, old(|blocks|), block)
      ensures ok ==> blocks[old(|blocks|)].Offset() == offset && Chosen(codec, method_, block, blocks[old(|blocks|)])
    {
      var encoded, bytes, index := Encode(codec, method_, block);
      if !encoded {
        return false, offset;
      }
      var written := Obfuscate(codec, WriteKey(), bytes);
      AlignIsLeast(|bytes|, 16, BLOCK_SIZE / 16);
      StoredBehind(codec, WriteKey(), cas, written, bytes);
      var entry := NewBlockEntry(offset, |bytes|, |block|, index);
      EntryFits(offset, |bytes|, |block|, index);
      EncodedDecodes(codec, methods, WriteKey(), cas + written, method_, offset, bytes, index, block, entry);
      cas, blocks := cas + written, blocks + [entry];
      casOffset := offset + |written|;
      return true, casOffset;
    }

    /** All blocks of a chunk. */
    method WriteBlocks(data: seq<byte>, method_: Option<nat>) returns (ok: bool)
      requires Tidy() && (|blocks| + Pieces(|data|)) * BLOCK_SIZE < OFFSET_LIMIT
      requires method_.Some? ==> method_ == compression
      modifies this`cas, this`casOffset, this`blocks
      ensures ok <==> AllEncodable(codec, method_, data, Pieces(|data|))
      ensures ok ==> Tidy() && old(cas) <= cas && old(blocks) <= blocks && |blocks| == old(|blocks|) + Pieces(|data|)
      ensures ok ==> HoldsPieces(codec, methods, WriteKey(), cas, blocks, old(|blocks|), data, Pieces(|data|))
      ensures ok ==> PiecesChosen(codec, method_, blocks, old(|blocks|), data, Pieces(|data|))
    {
      var offset := casOffset;
      for j := 0 to Pieces(|data|)
        invariant Tidy() && offset == casOffset && old(cas) <= cas && old(blocks) <= blocks &&
                  |blocks| == old(|blocks|) + j
        invariant HoldsPieces(codec, methods, WriteKey(), cas, blocks, old(|blocks|), data, j)
        invariant AllEncodable(codec, method_, data, j)
        invariant PiecesChosen(codec, method_, blocks, old(|blocks|), data, j)
      {
        ghost var cas', blocks' := cas, blocks;
        ok, offset := WriteBlock(Piece(data, j), method_, offset);
        if !ok {
          return;
        }
        PiecesStay(codec, methods, WriteKey(), cas', blocks', cas, blocks, old(|blocks|), data, j);
        assert blocks == blocks' + [blocks[|blocks'|]];
        OneMoreChosen(codec, method_, blocks', blocks[|blocks'|], old(|blocks|), data, j);
      }
      ok := true;
    }

    /**
     * `write_chunk_inner`: the chunk joins the contents and every chunk before it stays readable. It fails exactly
     * when the compressor does.
     */
    method WriteChunk(data: seq<byte>, method_: Option<nat>) returns (ok: bool)
      requires Valid() && (|blocks| + Pieces(|data|)) * BLOCK_SIZE < OFFSET_LIMIT
      requires method_.Some? ==> method_ == compression
      modifies this
      ensures ok <==> AllEncodable(codec, method_, data, Pieces(|data|))
      ensures ok ==> Valid() && contents == old(contents) + [data]
      ensures ok ==> |blocks| == old(|blocks|) + Pieces(|data|)
      ensures ok ==> PiecesChosen(codec, method_, blocks, old(|blocks|), data, Pieces(|data|))
    {
      var start := |blocks|;
      ghost var cas', blocks' := cas, blocks;
      ok := WriteBlocks(data, method_);
      if ok {
        EntryOf(start, |data|);
        BlockMultiple(start);
        AllHeldAppend(codec, methods, WriteKey(), cas', blocks', entries, contents, cas, blocks,
                      NewOffsetAndLength(start * BLOCK_SIZE, |data|), data);
        entries := entries + [NewOffsetAndLength(start * BLOCK_SIZE, |data|)];
        contents := contents + [data];
      }
    }

    lemma {:induction false} TableValid()
      requires Valid()
      ensures Table().Valid()
    {
      forall e | e in entries ensures e.Valid() {
        var k :| 0 <= k < |entries| && entries[k] == e;
        assert HeldAt(codec, methods, WriteKey(), cas, blocks, entries, contents, k);
      }
    }

    /** A chunk is well formed and reads as what was written, unless it is empty and no data precedes it. */
    lemma {:induction false} ContentsRead(i: nat)
      requires Valid() && i < |contents|
      ensures Table().Valid() && Table().encrypted == obfuscated
      ensures Table().CryptKey() ==
        if obfuscated then Some(if aesKey.Some? then aesKey.value else DEFAULT_AES_KEY) else None
      ensures entries[i].Offset() + entries[i].Length() == 0 <==> AllEmpty(contents, i + 1)
      ensures !AllEmpty(contents, i + 1) ==>
        WellFormed(Table(), i) && ReadResult(codec, Table(), cas, i) == Success(contents[i])
    {
      TableValid();
      assert HeldAt(codec, methods, WriteKey(), cas, blocks, entries, contents, i);
      NoBlocksBefore(contents, i);
      if entries[i].Offset() + |contents[i]| > 0 {
        HeldChunkReads(codec, Table(), cas, i, contents[i]);
      }
    }

    /** What was written is read back, except by an empty chunk that no data precedes. */
    method ReadBack(i: nat) returns (r: Result<seq<byte>>)
      requires Valid() && i < |contents|
      ensures r == Success(contents[i]) <==> !AllEmpty(contents, i + 1)
      ensures AllEmpty(contents, i + 1) ==> r.Failure?
    {
      ContentsRead(i);
      r := ReadChunk(codec, Table(), cas, i);
    }
  }

  /** A chunk to write, and whether `write_chunk` or `write_chunk_uncompressed` writes it. */
  datatype ChunkToWrite = ChunkToWrite(data: seq<byte>, uncompressed: bool)

  ghost predicate CanBeWritten(codec: Codec, compression: Option<nat>, chunk: ChunkToWrite) {
    AllEncodable(codec, if chunk.uncompressed then None else compression, chunk.data, Pieces(|chunk.data|))
  }

  ghost function DataOf(chunks: seq<ChunkToWrite>): seq<seq<byte>> {
    seq(|chunks|, i requires 0 <= i < |chunks| => chunks[i].data)
  }

  lemma {:induction false} RoomForNext(all: seq<seq<byte>>, k: nat)
    requires k < |all| && BlocksBefore(all, |all|) * BLOCK_SIZE < OFFSET_LIMIT
    ensures (BlocksBefore(all[..k], k) + Pieces(|all[k]|)) * BLOCK_SIZE < OFFSET_LIMIT
  {
    BlocksOfPrefix(all, k, k);
    BlocksBeforeGrows(all, k + 1, |all|);
  }

  /** All chunks in turn. */
  method WriteAll(writer: IoStoreWriter, chunks: seq<ChunkToWrite>) returns (written: bool)
    requires writer.Valid() && writer.contents == [] && writer.blocks == []
    requires BlocksBefore(DataOf(chunks), |chunks|) * BLOCK_SIZE < OFFSET_LIMIT
    modifies writer
    ensures written <==> forall k :: 0 <= k < |chunks| ==> CanBeWritten(writer.codec, writer.compression, chunks[k])
    ensures written ==> writer.Valid() && writer.contents == DataOf(chunks)
  {
    ghost var all := DataOf(chunks);
    for k := 0 to |chunks|
      invariant writer.Valid() && writer.contents == all[..k]
      invariant forall j :: 0 <= j < k ==> CanBeWritten(writer.codec, writer.compression, chunks[j])
    {
      RoomForNext(all, k);
      written := writer.WriteChunk(chunks[k].data, if chunks[k].uncompressed then None else writer.compression);
      if !written {
        assert !CanBeWritten(writer.codec, writer.compression, chunks[k]);
        return;
      }
      assert all[..k] + [chunks[k].data] == all[..k + 1];
    }
    assert all[..|chunks|] == all;
    written := true;
  }

  /** A whole run: chunks written into a new container, then one of them read. */
  method WriteThenRead(codec: Codec, compression: Option<nat>, obfuscated: bool, aesKey: Option<nat>,
                       chunks: seq<ChunkToWrite>, i: nat)
    returns (written: bool, r: Result<seq<byte>>)
    requires codec.Lawful() && i < |chunks|
    requires BlocksBefore(DataOf(chunks), |chunks|) * BLOCK_SIZE < OFFSET_LIMIT
    ensures written <==> forall k :: 0 <= k < |chunks| ==> CanBeWritten(codec, compression, chunks[k])
    ensures written ==> (r == Success(chunks[i].data) <==> exists j :: 0 <= j <= i && chunks[j].data != [])
  {
    var writer := new IoStoreWriter(codec, compression, obfuscated, aesKey);
    r := Failure("nothing read");
    written := WriteAll(writer, chunks);
    if written {
      r := writer.ReadBack(i);
      SomeData(chunks, i);
    }
  }

  lemma {:induction false} SomeData(chunks: seq<ChunkToWrite>, i: nat)
    requires i < |chunks|
    ensures !AllEmpty(DataOf(chunks), i + 1) <==> exists j :: 0 <= j <= i && chunks[j].data != []
  {
    forall j | 0 <= j <= i ensures DataOf(chunks)[j] == chunks[j].data {
    }
    if !AllEmpty(DataOf(chunks), i + 1) {
      var j :| 0 <= j < i + 1 && DataOf(chunks)[j] != [];
      assert chunks[j].data != [];
    } else {
      forall j | 0 <= j <= i ensures chunks[j].data == [] {
        assert DataOf(chunks)[j] == [];
      }
    }
  }

  lemma {:induction false} BlocksOfPrefix(contents: seq<seq<byte>>, k: nat, i: nat)
    requires i <= k <= |contents|
    ensures BlocksBefore(contents[..k], i) == BlocksBefore(contents, i)
  {
    if i > 0 {
      BlocksOfPrefix(contents, k, i - 1);
    }
  }

  lemma {:induction false} BlocksBeforeGrows(contents: seq<seq<byte>>, i: nat, j: nat)
    requires i <= j <= |contents|
    ensures BlocksBefore(contents, i) <= BlocksBefore(contents, j)
    decreases j
  {
    if i < j {
      BlocksBeforeGrows(contents, i, j - 1);
    }
  }
}
