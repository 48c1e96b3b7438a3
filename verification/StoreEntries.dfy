/** Package store entries of a container header: fixed-size entries, and arrays behind them at relative offsets. */
module StoreEntries {
  import opened Package
  import opened Bytes
  import opened Cursors

  /** `EIoContainerHeaderVersion`, oldest first. */
  datatype Version =
    PreInitial | Initial | LocalizedPackages | OptionalSegmentPackages | NoExportInfo | SoftPackageReferences

  predicate HasHashes(v: Version) { !v.PreInitial? && !v.Initial? }

  predicate HasCounts(v: Version) { !v.NoExportInfo? && !v.SoftPackageReferences? }

  /** Where the imported packages are within an entry. */
  function MemberOffset(v: Version): nat {
    match v
    case PreInitial => 8
    case Initial => 24
    case LocalizedPackages => 8
    case OptionalSegmentPackages => 8
    case NoExportInfo => 0
    case SoftPackageReferences => 0
  }

  function EntrySize(v: Version): nat {
    match v
    case PreInitial => 16
    case Initial => 32
    case LocalizedPackages => 24
    case OptionalSegmentPackages => 24
    case NoExportInfo => 16
    case SoftPackageReferences => 16
  }

  /** `StoreEntry`. */
  datatype StoreEntry = StoreEntry(
    exportBundlesSize: nat,
    loadOrder: nat,
    exportCount: int,
    exportBundleCount: int,
    importedPackages: seq<nat>,
    shaderMapHashes: seq<seq<byte>>)
  {
    /** Fields within their widths, and hashes of 20 bytes. */
    ghost predicate Valid() {
      && exportBundlesSize < 0x1_0000_0000_0000_0000 && loadOrder < 0x1_0000_0000 && IsI32(exportCount) &&
         IsI32(exportBundleCount)
      && (forall p :: p in importedPackages ==> p < 0x1_0000_0000_0000_0000)
      && (forall h :: h in shaderMapHashes ==> |h| == 20)
    }

    /** The fields that a version stores. */
    ghost function Stored(v: Version): StoreEntry {
      StoreEntry(
        if v.Initial? then exportBundlesSize else 0,
        if v.Initial? then loadOrder else 0,
        if HasCounts(v) then exportCount else 0,
        if HasCounts(v) then exportBundleCount else 0,
        importedPackages,
        if HasHashes(v) then shaderMapHashes else [])
    }
  }

  /** `TFilePackageStoreEntryCArrayView`: a length, and an offset that counts from the view itself. */
  datatype ArrayView = ArrayView(count: nat, offset: nat)

  /** `FFilePackageStoreEntry`. */
  datatype FileEntry = FileEntry(
    exportBundlesSize: nat,
    loadOrder: nat,
    exportCount: int,
    exportBundleCount: int,
    imports: ArrayView,
    hashes: ArrayView)

  // ---- Bytes ----

  function Opt(present: bool, bytes: seq<byte>): seq<byte> {
    if present then bytes else []
  }

  function ViewBytes(a: ArrayView): (r: seq<byte>)
    ensures |r| == 8
  {
    Le(a.count, 4) + Le(a.offset, 4)
  }

  /** An entry as it is written: the fields of its version, in order. */
  function EntryBytes(v: Version, e: FileEntry): (r: seq<byte>)
    ensures |r| == EntrySize(v)
  {
    Opt(v.Initial?, Le(e.exportBundlesSize, 8))
    + (Opt(HasCounts(v), I32(e.exportCount) + I32(e.exportBundleCount))
    + (Opt(v.Initial?, Le(e.loadOrder, 4) + Le(0, 4))
    + (ViewBytes(e.imports)
    + Opt(HasHashes(v), ViewBytes(e.hashes)))))
  }

  function ImportBytes(packages: seq<nat>): (r: seq<byte>)
    ensures |r| == 8 * |packages|
  {
    if packages == [] then [] else ImportBytes(packages[..|packages| - 1]) + Le(packages[|packages| - 1], 8)
  }

  function HashBytes(hashes: seq<seq<byte>>): seq<byte> {
    if hashes == [] then [] else HashBytes(hashes[..|hashes| - 1]) + hashes[|hashes| - 1]
  }

  function ArrayBytes(v: Version, e: StoreEntry): seq<byte> {
    ImportBytes(e.importedPackages) + Opt(HasHashes(v), HashBytes(e.shaderMapHashes))
  }

  lemma {:induction false} HashBytesLength(hashes: seq<seq<byte>>)
    requires forall h :: h in hashes ==> |h| == 20
    ensures |HashBytes(hashes)| == 20 * |hashes|
  {
    if hashes != [] {
      HashBytesLength(hashes[..|hashes| - 1]);
      assert hashes[|hashes| - 1] in hashes;
    }
  }

  // ---- Where things are ----

  function EntryStart(v: Version, i: nat): nat {
    if i == 0 then 0 else EntryStart(v, i - 1) + EntrySize(v)
  }

  lemma {:induction false} EntryStartProduct(v: Version, i: nat)
    ensures EntryStart(v, i) == i * EntrySize(v)
  {
    if i > 0 {
      EntryStartProduct(v, i - 1);
      assert i * EntrySize(v) == (i - 1) * EntrySize(v) + EntrySize(v);
    }
  }

  lemma {:induction false} EntryStartGrows(v: Version, i: nat, j: nat)
    requires i < j
    ensures EntryStart(v, i) + EntrySize(v) <= EntryStart(v, j)
  {
    if i < j - 1 {
      EntryStartGrows(v, i, j - 1);
    }
  }

  /** Arrays follow the entries, in the order of the entries. */
  ghost function ArrayStart(v: Version, entries: seq<StoreEntry>, i: nat): nat
    requires i <= |entries|
  {
    if i == 0 then EntryStart(v, |entries|) else ArrayStart(v, entries, i - 1) + |ArrayBytes(v, entries[i - 1])|
  }

  lemma {:induction false} ArrayStartGrows(v: Version, entries: seq<StoreEntry>, i: nat, j: nat)
    requires i <= j <= |entries|
    ensures ArrayStart(v, entries, i) <= ArrayStart(v, entries, j)
    ensures i < j ==> ArrayStart(v, entries, i) + |ArrayBytes(v, entries[i])| <= ArrayStart(v, entries, j)
    ensures EntryStart(v, |entries|) <= ArrayStart(v, entries, i)
    decreases j
  {
    if i < j {
      ArrayStartGrows(v, entries, i, j - 1);
    } else {
      ArraysBehindEntries(v, entries, i);
    }
  }

  lemma {:induction false} ArraysBehindEntries(v: Version, entries: seq<StoreEntry>, i: nat)
    requires i <= |entries|
    ensures EntryStart(v, |entries|) <= ArrayStart(v, entries, i)
  {
    if i > 0 {
      ArraysBehindEntries(v, entries, i - 1);
    }
  }

  /** An array's offset relative to its view in entry `i`; an empty array has none. */
  ghost function ViewFor(count: nat, start: nat, view: nat): ArrayView
    requires view <= start
  {
    if count == 0 then ArrayView(0, 0) else ArrayView(count, start - view)
  }

  lemma {:induction false} ViewsBeforeArrays(v: Version, entries: seq<StoreEntry>, i: nat)
    requires i < |entries|
    ensures EntryStart(v, i) + MemberOffset(v) + (if HasHashes(v) then 16 else 8) == EntryStart(v, i) + EntrySize(v)
    ensures EntryStart(v, i) + EntrySize(v) <= ArrayStart(v, entries, i)
  {
    EntryStartGrows(v, i, |entries|);
    ArrayStartGrows(v, entries, i, i);
  }

  /** The entry that is written for entry `i`. */
  ghost function EntryFor(v: Version, entries: seq<StoreEntry>, i: nat): FileEntry
    requires i < |entries|
  {
    var e, at, start := entries[i], EntryStart(v, i) + MemberOffset(v), ArrayStart(v, entries, i);
    ViewsBeforeArrays(v, entries, i);
    FileEntry(e.exportBundlesSize, e.loadOrder, e.exportCount, e.exportBundleCount,
              ViewFor(|e.importedPackages|, start, at),
              if HasHashes(v)
                then ViewFor(|e.shaderMapHashes|, start + 8 * |e.importedPackages|, at + 8) else ArrayView(0, 0))
  }

  // ---- Writing ----

  /** The first `n` entries and their arrays are in the buffer. */
  ghost predicate HoldsEntry(buffer: seq<byte>, v: Version, entries: seq<StoreEntry>, i: nat)
    requires i < |entries|
  {
    && HasBlob(buffer, EntryStart(v, i), EntryBytes(v, EntryFor(v, entries, i)))
    && HasBlob(buffer, ArrayStart(v, entries, i), ArrayBytes(v, entries[i]))
  }

  ghost predicate HoldsEntries(buffer: seq<byte>, v: Version, entries: seq<StoreEntry>, n: nat)
    requires n <= |entries|
  {
    forall i: nat :: i < n ==> HoldsEntry(buffer, v, entries, i)
  }

  /** The buffer once the arrays of entry `n` and then the entry are written. */
  ghost function WithEntry(buffer: seq<byte>, v: Version, entries: seq<StoreEntry>, n: nat): seq<byte>
    requires n < |entries|
  {
    var arrays := WriteAt(buffer, ArrayStart(v, entries, n), ArrayBytes(v, entries[n]));
    WriteAt(arrays, EntryStart(v, n), EntryBytes(v, EntryFor(v, entries, n)))
  }

  /** That touches nothing of the entries before it. */
  lemma {:induction false} WriteKeepsEntry(buffer: seq<byte>, v: Version, entries: seq<StoreEntry>, n: nat, i: nat)
    requires i < n < |entries| && HoldsEntry(buffer, v, entries, i)
    ensures HoldsEntry(WithEntry(buffer, v, entries, n), v, entries, i)
  {
    var own, behind := EntryBytes(v, EntryFor(v, entries, i)), ArrayBytes(v, entries[i]);
    var arrays := WriteAt(buffer, ArrayStart(v, entries, n), ArrayBytes(v, entries[n]));
    EntryStartGrows(v, i, n);
    ViewsBeforeArrays(v, entries, i);
    ViewsBeforeArrays(v, entries, n);
    ArrayStartGrows(v, entries, i, n);
    EntryStartGrows(v, n, |entries|);
    WriteAtKeeps(buffer, ArrayStart(v, entries, n), ArrayBytes(v, entries[n]), EntryStart(v, i), own);
    WriteAtKeeps(buffer, ArrayStart(v, entries, n), ArrayBytes(v, entries[n]), ArrayStart(v, entries, i), behind);
    WriteAtKeeps(arrays, EntryStart(v, n), EntryBytes(v, EntryFor(v, entries, n)), EntryStart(v, i), own);
    WriteAtKeeps(arrays, EntryStart(v, n), EntryBytes(v, EntryFor(v, entries, n)), ArrayStart(v, entries, i), behind);
  }

  lemma {:induction false} WriteHoldsEntry(buffer: seq<byte>, v: Version, entries: seq<StoreEntry>, n: nat)
    requires n < |entries|
    ensures HoldsEntry(WithEntry(buffer, v, entries, n), v, entries, n)
  {
    var arrays := WriteAt(buffer, ArrayStart(v, entries, n), ArrayBytes(v, entries[n]));
    WriteAtHolds(buffer, ArrayStart(v, entries, n), ArrayBytes(v, entries[n]));
    ViewsBeforeArrays(v, entries, n);
    WriteAtKeeps(arrays, EntryStart(v, n), EntryBytes(v, EntryFor(v, entries, n)), ArrayStart(v, entries, n),
                 ArrayBytes(v, entries[n]));
    WriteAtHolds(arrays, EntryStart(v, n), EntryBytes(v, EntryFor(v, entries, n)));
  }

  lemma {:induction false} WriteExtends(buffer: seq<byte>, v: Version, entries: seq<StoreEntry>, n: nat)
    requires n < |entries| && HoldsEntries(buffer, v, entries, n)
    ensures HoldsEntries(WithEntry(buffer, v, entries, n), v, entries, n + 1)
  {
    forall k: nat | k < n + 1 ensures HoldsEntry(WithEntry(buffer, v, entries, n), v, entries, k) {
      HoldsAfter(buffer, v, entries, n, k);
    }
  }

  lemma {:induction false} HoldsAfter(buffer: seq<byte>, v: Version, entries: seq<StoreEntry>, n: nat, k: nat)
    requires k <= n < |entries| && (k < n ==> HoldsEntry(buffer, v, entries, k))
    ensures HoldsEntry(WithEntry(buffer, v, entries, n), v, entries, k)
  {
    if k < n {
      WriteKeepsEntry(buffer, v, entries, n, k);
    } else {
      WriteHoldsEntry(buffer, v, entries, n);
    }
  }

  /** One array at the position, and its view; an empty array is not written. The subtraction does not underflow. */
  method WriteArray(buffer: seq<byte>, position: nat, bytes: seq<byte>, count: nat, view: nat)
    returns (buffer': seq<byte>, position': nat, a: ArrayView)
    requires view <= position && (count == 0 ==> bytes == [])
    ensures buffer' == WriteAt(buffer, position, bytes) && position' == position + |bytes| &&
            a == ViewFor(count, position, view)
  {
    buffer', position', a := buffer, position, ArrayView(0, 0);
    if count != 0 {
      a := ArrayView(count, position - view);
      buffer' := WriteAt(buffer, position, bytes);
      position' := position + |bytes|;
    }
  }

  /** The arrays of an entry, behind everything so far, and their views. */
  method WriteArrays(v: Version, e: StoreEntry, buffer: seq<byte>, entryOffset: nat, arrayOffset: nat)
    returns (buffer': seq<byte>, position: nat, imports: ArrayView, hashes: ArrayView)
    requires entryOffset + EntrySize(v) <= arrayOffset
    ensures position == arrayOffset + |ArrayBytes(v, e)| && buffer' == WriteAt(buffer, arrayOffset, ArrayBytes(v, e))
    ensures imports == ViewFor(|e.importedPackages|, arrayOffset, entryOffset + MemberOffset(v))
    ensures hashes ==
      if HasHashes(v)
        then ViewFor(|e.shaderMapHashes|, arrayOffset + 8 * |e.importedPackages|,
                     entryOffset + MemberOffset(v) + 8) else ArrayView(0, 0)
  {
    ghost var hashBytes := Opt(HasHashes(v), HashBytes(e.shaderMapHashes));
    buffer', position, imports :=
      WriteArray(buffer, arrayOffset, ImportBytes(e.importedPackages), |e.importedPackages|,
                 entryOffset + MemberOffset(v));
    hashes := ArrayView(0, 0);
    WriteTwice(buffer, arrayOffset, ImportBytes(e.importedPackages), hashBytes);
    if HasHashes(v) {
      buffer', position, hashes :=
        WriteArray(buffer', position, HashBytes(e.shaderMapHashes), |e.shaderMapHashes|,
                   entryOffset + MemberOffset(v) + 8);
    }
  }

  /** One pass of the writing loop: the arrays, then back to write the entry. */
  method WriteEntry(v: Version, e: StoreEntry, buffer: seq<byte>, entryOffset: nat, arrayOffset: nat,
                    ghost entries: seq<StoreEntry>, ghost i: nat)
    returns (buffer': seq<byte>, arrayOffset': nat)
    requires i < |entries| && e == entries[i] && entryOffset == EntryStart(v, i) &&
             arrayOffset == ArrayStart(v, entries, i)
    ensures arrayOffset' == ArrayStart(v, entries, i + 1)
    ensures buffer' == WithEntry(buffer, v, entries, i)
  {
    ViewsBeforeArrays(v, entries, i);
    var imports, hashes;
    buffer', arrayOffset', imports, hashes := WriteArrays(v, e, buffer, entryOffset, arrayOffset);
    var entry := FileEntry(e.exportBundlesSize, e.loadOrder, e.exportCount, e.exportBundleCount, imports, hashes);
    assert entry == EntryFor(v, entries, i);
    buffer' := WriteAt(buffer', entryOffset, EntryBytes(v, entry));
  }

  /** `StoreEntries::serialize` for the entries and their arrays. */
  method WriteEntries(v: Version, entries: seq<StoreEntry>) returns (buffer: seq<byte>)
    ensures HoldsEntries(buffer, v, entries, |entries|)
  {
    buffer := [];
    EntryStartProduct(v, |entries|);
    var position, arrayOffset := 0, |entries| * EntrySize(v);
    for i := 0 to |entries|
      invariant position == EntryStart(v, i) && arrayOffset == ArrayStart(v, entries, i)
      invariant HoldsEntries(buffer, v, entries, i)
    {
      WriteExtends(buffer, v, entries, i);
      buffer, arrayOffset := WriteEntry(v, entries[i], buffer, position, arrayOffset, entries, i);
      position := position + EntrySize(v);
    }
  }

  // ---- Reading ----

  /** What is left of an entry when a version has stored it. */
  ghost function StoredEntry(v: Version, e: FileEntry): FileEntry {
    FileEntry(if v.Initial? then e.exportBundlesSize else 0, if v.Initial? then e.loadOrder else 0,
              if HasCounts(v) then e.exportCount else 0, if HasCounts(v) then e.exportBundleCount else 0,
              e.imports, if HasHashes(v) then e.hashes else ArrayView(0, 0))
  }

  ghost predicate ViewFits(a: ArrayView) { a.count < 0x1_0000_0000 && a.offset < 0x1_0000_0000 }

  ghost predicate EntryFits(e: FileEntry) {
    && e.exportBundlesSize < 0x1_0000_0000_0000_0000 && e.loadOrder < 0x1_0000_0000 && IsI32(e.exportCount) &&
       IsI32(e.exportBundleCount)
    && ViewFits(e.imports) && ViewFits(e.hashes)
  }

  function ReadView(buffer: seq<byte>, at: nat): Option<ArrayView> {
    var count, offset := ReadLe(buffer, at, 4), ReadLe(buffer, at + 4, 4);
    if count.Some? && offset.Some? then Some(ArrayView(count.value, offset.value)) else None
  }

  lemma {:induction false} ViewReadsBack(buffer: seq<byte>, at: nat, a: ArrayView)
    requires ViewFits(a) && HasBlob(buffer, at, ViewBytes(a))
    ensures ReadView(buffer, at) == Some(a)
  {
    Ranges();
    SplitBlob(buffer, at, Le(a.count, 4), Le(a.offset, 4));
    ReadsBack(buffer, at, a.count, 4);
    ReadsBack(buffer, at + 4, a.offset, 4);
  }

  /** The parts of a written entry, each at its place. */
  lemma {:induction false} FourBlobs(buffer: seq<byte>, at: nat, a: seq<byte>, b: seq<byte>, c: seq<byte>, d: seq<byte>)
    requires HasBlob(buffer, at, a + (b + (c + d)))
    ensures HasBlob(buffer, at, a) && HasBlob(buffer, at + |a|, b)
    ensures HasBlob(buffer, at + |a| + |b|, c) && HasBlob(buffer, at + |a| + |b| + |c|, d)
  {
    SplitBlob(buffer, at, a, b + (c + d));
    SplitBlob(buffer, at + |a|, b, c + d);
    SplitBlob(buffer, at + |a| + |b|, c, d);
  }

  lemma {:induction false} EntryParts(buffer: seq<byte>, v: Version, e: FileEntry, at: nat)
    requires HasBlob(buffer, at, EntryBytes(v, e))
    ensures v.Initial? ==>
      HasBlob(buffer, at, Le(e.exportBundlesSize, 8)) && HasBlob(buffer, at + 16, Le(e.loadOrder, 4))
    ensures HasCounts(v) ==>
      HasBlob(buffer, at + CountsOffset(v), I32(e.exportCount)) &&
      HasBlob(buffer, at + CountsOffset(v) + 4, I32(e.exportBundleCount))
    ensures HasBlob(buffer, at + MemberOffset(v), ViewBytes(e.imports))
    ensures HasHashes(v) ==> HasBlob(buffer, at + MemberOffset(v) + 8, ViewBytes(e.hashes))
  {
    var size, counts, order, views := Opt(v.Initial?, Le(e.exportBundlesSize, 8)),
      Opt(HasCounts(v), I32(e.exportCount) + I32(e.exportBundleCount)),
      Opt(v.Initial?, Le(e.loadOrder, 4) + Le(0, 4)), ViewBytes(e.imports) + Opt(HasHashes(v), ViewBytes(e.hashes));
    FourBlobs(buffer, at, size, counts, order, views);
    SplitBlob(buffer, at + |size| + |counts| + |order|, ViewBytes(e.imports), Opt(HasHashes(v), ViewBytes(e.hashes)));
    if HasCounts(v) {
      SplitBlob(buffer, at + |size|, I32(e.exportCount), I32(e.exportBundleCount));
    }
    if v.Initial? {
      SplitBlob(buffer, at + 16, Le(e.loadOrder, 4), Le(0, 4));
    }
  }

  function CountsOffset(v: Version): nat { if v.Initial? then 8 else 0 }

  /** The numbers in an entry before its views, read in order; the position ends at the views. */
  method ReadNumbers(buffer: seq<byte>, v: Version, at: nat, ghost e: FileEntry)
    returns (ok: bool, size: nat, order: nat, count: int, bundles: int, position: nat)
    ensures HasBlob(buffer, at, EntryBytes(v, e)) && EntryFits(e) ==>
      var s := StoredEntry(v, e);
      && ok && size == s.exportBundlesSize && order == s.loadOrder
      && count == s.exportCount && bundles == s.exportBundleCount
    ensures ok ==> position == at + MemberOffset(v)
  {
    ghost var held := HasBlob(buffer, at, EntryBytes(v, e)) && EntryFits(e);
    if held {
      EntryParts(buffer, v, e, at);
      NumbersReadBack(buffer, v, at, e);
    }
    ok, size, order, count, bundles, position := true, 0, 0, 0, 0, at;
    if v.Initial? {
      var r := ReadLe(buffer, position, 8);
      if r.None? {
        return false, 0, 0, 0, 0, position;
      }
      size, position := r.value, position + 8;
    }
    if HasCounts(v) {
      var r, q := ReadI32(buffer, position), ReadI32(buffer, position + 4);
      if r.None? || q.None? {
        return false, 0, 0, 0, 0, position;
      }
      count, bundles, position := r.value, q.value, position + 8;
    }
    if v.Initial? {
      var r, pad := ReadLe(buffer, position, 4), ReadLe(buffer, position + 4, 4);
      if r.None? || pad.None? {
        return false, 0, 0, 0, 0, position;
      }
      order, position := r.value, position + 8;
    }
  }

  lemma {:induction false} NumbersReadBack(buffer: seq<byte>, v: Version, at: nat, e: FileEntry)
    requires HasBlob(buffer, at, EntryBytes(v, e)) && EntryFits(e)
    ensures v.Initial? ==>
      ReadLe(buffer, at, 8) == Some(e.exportBundlesSize) && ReadLe(buffer, at + 16, 4) == Some(e.loadOrder) &&
      ReadLe(buffer, at + 20, 4).Some?
    ensures HasCounts(v) ==>
      ReadI32(buffer, at + CountsOffset(v)) == Some(e.exportCount) &&
        ReadI32(buffer, at + CountsOffset(v) + 4) == Some(e.exportBundleCount)
  {
    EntryParts(buffer, v, e, at);
    Ranges();
    if v.Initial? {
      ReadsBack(buffer, at, e.exportBundlesSize, 8);
      ReadsBack(buffer, at + 16, e.loadOrder, 4);
    }
    if HasCounts(v) {
      ReadsBackSigned(buffer, at + CountsOffset(v), e.exportCount);
      ReadsBackSigned(buffer, at + CountsOffset(v) + 4, e.exportBundleCount);
    }
  }

  /** `FFilePackageStoreEntry::deserialize`. */
  method ReadFileEntry(buffer: seq<byte>, v: Version, at: nat, ghost e: FileEntry) returns (r: Option<FileEntry>)
    ensures HasBlob(buffer, at, EntryBytes(v, e)) && EntryFits(e) ==> r == Some(StoredEntry(v, e))
  {
    var ok, size, order, count, bundles, position := ReadNumbers(buffer, v, at, e);
    if !ok {
      return None;
    }
    if HasBlob(buffer, at, EntryBytes(v, e)) && EntryFits(e) {
      EntryParts(buffer, v, e, at);
      ViewReadsBack(buffer, at + MemberOffset(v), e.imports);
      if HasHashes(v) {
        ViewReadsBack(buffer, at + MemberOffset(v) + 8, e.hashes);
      }
    }
    var imports := ReadView(buffer, position);
    if imports.None? {
      return None;
    }
    var hashes := Some(ArrayView(0, 0));
    if HasHashes(v) {
      hashes := ReadView(buffer, position + 8);
      if hashes.None? {
        return None;
      }
    }
    r := Some(FileEntry(size, order, count, bundles, imports.value, hashes.value));
  }

  // ---- Reading the arrays ----

  lemma {:induction false} PrefixBlob(buffer: seq<byte>, at: nat, packages: seq<nat>, k: nat)
    requires HasBlob(buffer, at, ImportBytes(packages)) && k < |packages|
    ensures HasBlob(buffer, at + 8 * k, Le(packages[k], 8))
  {
    var front := packages[..|packages| - 1];
    SplitBlob(buffer, at, ImportBytes(front), Le(packages[|packages| - 1], 8));
    if k < |front| {
      PrefixBlob(buffer, at, front, k);
    }
  }

  lemma {:induction false} PrefixHashBlob(buffer: seq<byte>, at: nat, hashes: seq<seq<byte>>, k: nat)
    requires HasBlob(buffer, at, HashBytes(hashes)) && k < |hashes| && forall h :: h in hashes ==> |h| == 20
    ensures HasBlob(buffer, at + 20 * k, hashes[k]) && |hashes[k]| == 20
  {
    var front, last := hashes[..|hashes| - 1], hashes[|hashes| - 1];
    SplitBlob(buffer, at, HashBytes(front), last);
    assert forall h :: h in front ==> h in hashes;
    HashBytesLength(front);
    assert hashes[k] in hashes;
    if k < |front| {
      PrefixHashBlob(buffer, at, front, k);
    }
  }

  ghost predicate PackagesFit(packages: seq<nat>) {
    forall p :: p in packages ==> p < 0x1_0000_0000_0000_0000
  }

  method ReadImports(buffer: seq<byte>, at: nat, count: nat, ghost packages: seq<nat>) returns (r: Option<seq<nat>>)
    ensures HasBlob(buffer, at, ImportBytes(packages)) && PackagesFit(packages) && count == |packages| ==>
      r == Some(packages)
  {
    ghost var held := HasBlob(buffer, at, ImportBytes(packages)) && PackagesFit(packages) && count == |packages|;
    var list: seq<nat> := [];
    for k := 0 to count
      invariant |list| == k && (held ==> list == packages[..k])
    {
      if held {
        PrefixBlob(buffer, at, packages, k);
        Ranges();
        assert packages[k] in packages;
        ReadsBack(buffer, at + 8 * k, packages[k], 8);
      }
      var p := ReadLe(buffer, at + 8 * k, 8);
      if p.None? {
        return None;
      }
      list := list + [p.value];
    }
    assert held ==> packages[..count] == packages;
    r := Some(list);
  }

  method ReadHashes(buffer: seq<byte>, at: nat, count: nat, ghost hashes: seq<seq<byte>>)
    returns (r: Option<seq<seq<byte>>>)
    ensures HasBlob(buffer, at, HashBytes(hashes)) && (forall h :: h in hashes ==> |h| == 20) && count == |hashes| ==>
      r == Some(hashes)
  {
    ghost var held := HasBlob(buffer, at, HashBytes(hashes)) && (forall h :: h in hashes ==> |h| == 20) &&
      count == |hashes|;
    var list: seq<seq<byte>> := [];
    for k := 0 to count
      invariant |list| == k && (held ==> list == hashes[..k])
    {
      if held {
        PrefixHashBlob(buffer, at, hashes, k);
      }
      if at + 20 * k + 20 > |buffer| {
        return None;
      }
      list := list + [buffer[at + 20 * k..at + 20 * k + 20]];
    }
    assert held ==> hashes[..count] == hashes;
    r := Some(list);
  }

  /** All of the table fits the 32-bit offsets. */
  ghost predicate TableFits(v: Version, entries: seq<StoreEntry>) {
    ArrayStart(v, entries, |entries|) < 0x1_0000_0000 && forall e :: e in entries ==> e.Valid()
  }

  lemma {:induction false} EntryForFits(v: Version, entries: seq<StoreEntry>, i: nat)
    requires TableFits(v, entries) && i < |entries|
    ensures EntryFits(EntryFor(v, entries, i))
  {
    var e := entries[i];
    assert e in entries;
    ArrayStartGrows(v, entries, i, |entries|);
    HashBytesLength(e.shaderMapHashes);
    ViewsBeforeArrays(v, entries, i);
  }

  /** The imported packages behind a view at `at`; without any nothing is read. */
  method FollowImports(buffer: seq<byte>, at: nat, a: ArrayView, ghost packages: seq<nat>, ghost behind: bool)
    returns (r: Option<seq<nat>>)
    requires behind ==> ImportsBehind(buffer, at, a, packages)
    ensures behind ==> r == Some(packages)
  {
    r := Some([]);
    if a.count != 0 {
      r := ReadImports(buffer, at + a.offset, a.count, packages);
    }
  }

  method FollowHashes(buffer: seq<byte>, at: nat, a: ArrayView, ghost hashes: seq<seq<byte>>, ghost behind: bool)
    returns (r: Option<seq<seq<byte>>>)
    requires behind ==> HashesBehind(buffer, at, a, hashes)
    ensures behind ==> r == Some(hashes)
  {
    r := Some([]);
    if a.count != 0 {
      r := ReadHashes(buffer, at + a.offset, a.count, hashes);
    }
  }

  ghost predicate ImportsBehind(buffer: seq<byte>, at: nat, a: ArrayView, packages: seq<nat>) {
    a.count == |packages| && PackagesFit(packages) &&
      (packages != [] ==> HasBlob(buffer, at + a.offset, ImportBytes(packages)))
  }

  ghost predicate HashesBehind(buffer: seq<byte>, at: nat, a: ArrayView, hashes: seq<seq<byte>>) {
    a.count == |hashes| && (forall h :: h in hashes ==> |h| == 20) &&
      (hashes != [] ==> HasBlob(buffer, at + a.offset, HashBytes(hashes)))
  }

  /** What a reader finds behind the views of a file entry at an offset. */
  ghost predicate ArraysBehind(buffer: seq<byte>, v: Version, entry: FileEntry, offset: nat, e: StoreEntry) {
    && ImportsBehind(buffer, offset + MemberOffset(v), entry.imports, e.importedPackages)
    && (HasHashes(v) ==> HashesBehind(buffer, offset + MemberOffset(v) + 8, entry.hashes, e.shaderMapHashes))
  }

  lemma {:induction false} ArrayParts(buffer: seq<byte>, v: Version, at: nat, e: StoreEntry)
    requires HasBlob(buffer, at, ArrayBytes(v, e))
    ensures HasBlob(buffer, at, ImportBytes(e.importedPackages))
    ensures HasHashes(v) ==> HasBlob(buffer, at + 8 * |e.importedPackages|, HashBytes(e.shaderMapHashes))
  {
    SplitBlob(buffer, at, ImportBytes(e.importedPackages), Opt(HasHashes(v), HashBytes(e.shaderMapHashes)));
  }

  lemma {:induction false} ImportsLand(buffer: seq<byte>, v: Version, e: StoreEntry, at: nat, start: nat)
    requires at <= start && HasBlob(buffer, start, ArrayBytes(v, e)) && e.Valid()
    ensures ImportsBehind(buffer, at, ViewFor(|e.importedPackages|, start, at), e.importedPackages)
  {
    ArrayParts(buffer, v, start, e);
  }

  lemma {:induction false} HashesLand(buffer: seq<byte>, v: Version, e: StoreEntry, at: nat, start: nat)
    requires at <= start && HasBlob(buffer, start, ArrayBytes(v, e)) && e.Valid() && HasHashes(v)
    ensures at <= start + 8 * |e.importedPackages|
    ensures HashesBehind(buffer, at, ViewFor(|e.shaderMapHashes|, start + 8 * |e.importedPackages|, at),
                         e.shaderMapHashes)
  {
    ArrayParts(buffer, v, start, e);
  }

  /** The file entry that the reader gets for entry `i`. */
  ghost function FileEntryAt(v: Version, entries: seq<StoreEntry>, i: nat): FileEntry
    requires i < |entries|
  {
    StoredEntry(v, EntryFor(v, entries, i))
  }

  /** The views of entry `i`, given where it and its arrays start. */
  lemma {:induction false} ViewsOf(v: Version, entries: seq<StoreEntry>, i: nat, at: nat, start: nat)
    requires i < |entries| && at == EntryStart(v, i) + MemberOffset(v) && start == ArrayStart(v, entries, i)
    ensures HasViews(v, FileEntryAt(v, entries, i), entries[i], at, start)
  {
    ViewsBeforeArrays(v, entries, i);
  }

  ghost predicate HasViews(v: Version, entry: FileEntry, e: StoreEntry, at: nat, start: nat) {
    && at <= start && entry.imports == ViewFor(|e.importedPackages|, start, at)
    && (HasHashes(v) ==>
        at + 8 <= start && entry.hashes == ViewFor(|e.shaderMapHashes|, start + 8 * |e.importedPackages|, at + 8))
  }

  /** Relative offsets land on the arrays. */
  lemma {:induction false} ViewsLandOnArrays(buffer: seq<byte>, v: Version, entry: FileEntry, e: StoreEntry,
                                             offset: nat, start: nat)
    requires HasViews(v, entry, e, offset + MemberOffset(v), start) && HasBlob(buffer, start, ArrayBytes(v, e)) &&
             e.Valid()
    ensures ArraysBehind(buffer, v, entry, offset, e)
  {
    ImportsLand(buffer, v, e, offset + MemberOffset(v), start);
    if HasHashes(v) {
      HashesLand(buffer, v, e, offset + MemberOffset(v) + 8, start);
    }
  }

  /** An entry from its file entry and its arrays. */
  ghost function Joined(v: Version, entry: FileEntry, e: StoreEntry): StoreEntry {
    StoreEntry(entry.exportBundlesSize, entry.loadOrder, entry.exportCount, entry.exportBundleCount,
               e.importedPackages, if HasHashes(v) then e.shaderMapHashes else [])
  }

  /** One entry and its arrays. */
  method ReadEntry(buffer: seq<byte>, v: Version, entry: FileEntry, offset: nat, ghost e: StoreEntry,
                   ghost behind: bool)
    returns (r: Option<StoreEntry>)
    requires behind ==> ArraysBehind(buffer, v, entry, offset, e)
    ensures behind ==> r == Some(Joined(v, entry, e))
  {
    var imports := FollowImports(buffer, offset + MemberOffset(v), entry.imports, e.importedPackages, behind);
    if imports.None? {
      return None;
    }
    var hashes: Option<seq<seq<byte>>> := Some([]);
    if HasHashes(v) {
      hashes := FollowHashes(buffer, offset + MemberOffset(v) + 8, entry.hashes, e.shaderMapHashes, behind);
      if hashes.None? {
        return None;
      }
    }
    r := Some(StoreEntry(entry.exportBundlesSize, entry.loadOrder, entry.exportCount, entry.exportBundleCount,
                         imports.value, hashes.value));
  }

  /** The buffer is what writing these entries leaves. */
  ghost predicate WrittenTable(buffer: seq<byte>, v: Version, entries: seq<StoreEntry>, n: nat) {
    n == |entries| && HoldsEntries(buffer, v, entries, n) && TableFits(v, entries)
  }

  method ReadFileEntryAt(buffer: seq<byte>, v: Version, position: nat, n: nat, ghost entries: seq<StoreEntry>,
                         ghost i: nat)
    returns (r: Option<FileEntry>)
    requires i < n && position == EntryStart(v, i)
    ensures WrittenTable(buffer, v, entries, n) ==> r == Some(FileEntryAt(v, entries, i))
  {
    ghost var written := FileEntry(0, 0, 0, 0, ArrayView(0, 0), ArrayView(0, 0));
    if WrittenTable(buffer, v, entries, n) {
      EntryForFits(v, entries, i);
      assert HoldsEntry(buffer, v, entries, i);
      written := EntryFor(v, entries, i);
    }
    r := ReadFileEntry(buffer, v, position, written);
  }

  /** The fixed-size entries, one after the other. */
  method ReadFileEntries(buffer: seq<byte>, v: Version, n: nat, ghost entries: seq<StoreEntry>)
    returns (r: Option<seq<FileEntry>>)
    ensures r.Some? ==> |r.value| == n
    ensures WrittenTable(buffer, v, entries, n) ==> r.Some? && forall i ::
      0 <= i < n ==> r.value[i] == FileEntryAt(v, entries, i)
  {
    ghost var written := WrittenTable(buffer, v, entries, n);
    var list: seq<FileEntry> := [];
    var position := 0;
    for i := 0 to n
      invariant |list| == i && position == EntryStart(v, i)
      invariant written ==> i <= |entries| && forall k :: 0 <= k < i ==> list[k] == FileEntryAt(v, entries, k)
    {
      var entry := ReadFileEntryAt(buffer, v, position, n, entries, i);
      if entry.None? {
        return None;
      }
      list := list + [entry.value];
      position := position + EntrySize(v);
    }
    r := Some(list);
  }

  lemma {:induction false} EntryIsFound(buffer: seq<byte>, v: Version, n: nat, entries: seq<StoreEntry>, i: nat)
    requires WrittenTable(buffer, v, entries, n) && i < n
    ensures ArraysBehind(buffer, v, FileEntryAt(v, entries, i), EntryStart(v, i), entries[i])
  {
    var entry, e, offset, start := FileEntryAt(v, entries, i), entries[i], EntryStart(v, i), ArrayStart(v, entries, i);
    assert e in entries;
    assert HasBlob(buffer, start, ArrayBytes(v, e)) by {
      assert HoldsEntry(buffer, v, entries, i);
    }
    ViewsOf(v, entries, i, offset + MemberOffset(v), start);
    ViewsLandOnArrays(buffer, v, entry, e, offset, start);
  }

  lemma {:induction false} JoinedIsStored(v: Version, entries: seq<StoreEntry>, i: nat)
    requires i < |entries|
    ensures Joined(v, FileEntryAt(v, entries, i), entries[i]) == entries[i].Stored(v)
  {
  }

  /** Entry `i` with its arrays; its offset is computed from its index. */
  method ReadEntryAt(buffer: seq<byte>, v: Version, entry: FileEntry, i: nat, ghost n: nat,
                     ghost entries: seq<StoreEntry>)
    returns (r: Option<StoreEntry>)
    requires i < n
    ensures WrittenTable(buffer, v, entries, n) && entry == FileEntryAt(v, entries, i) ==>
      r == Some(entries[i].Stored(v))
  {
    EntryStartProduct(v, i);
    ghost var e := if i < |entries| then entries[i] else StoreEntry(0, 0, 0, 0, [], []);
    ghost var written := WrittenTable(buffer, v, entries, n) && entry == FileEntryAt(v, entries, i);
    if written {
      EntryIsFound(buffer, v, n, entries, i);
      JoinedIsStored(v, entries, i);
    }
    r := ReadEntry(buffer, v, entry, i * EntrySize(v), e, written);
  }

  /** `StoreEntries::deserialize`: what was written comes back, up to the fields that the version stores. */
  method ReadEntries(buffer: seq<byte>, v: Version, n: nat, ghost entries: seq<StoreEntry>)
    returns (r: Option<seq<StoreEntry>>)
    ensures WrittenTable(buffer, v, entries, n) ==> r == Some(StoredEntries(v, entries))
  {
    ghost var written := WrittenTable(buffer, v, entries, n);
    var fileEntries := ReadFileEntries(buffer, v, n, entries);
    if fileEntries.None? {
      return None;
    }
    var list: seq<StoreEntry> := [];
    for i := 0 to n
      invariant |list| == i &&
                (written ==> i <= |entries| && forall k :: 0 <= k < i ==> list[k] == entries[k].Stored(v))
    {
      var entry := ReadEntryAt(buffer, v, fileEntries.value[i], i, n, entries);
      if entry.None? {
        return None;
      }
      list := list + [entry.value];
    }
    assert written ==> list == StoredEntries(v, entries);
    r := Some(list);
  }

  ghost function StoredEntries(v: Version, entries: seq<StoreEntry>): seq<StoreEntry> {
    seq(|entries|, i requires 0 <= i < |entries| => entries[i].Stored(v))
  }

  /**
   * Written and read again, in any version: imported packages always come back, hashes from LocalizedPackages on,
   * counts until NoExportInfo, size and load order with Initial alone. What a version does not store comes back as zero
   * or none.
   */
  method WriteThenRead(v: Version, entries: seq<StoreEntry>) returns (r: Option<seq<StoreEntry>>)
    requires TableFits(v, entries)
    ensures r == Some(StoredEntries(v, entries)) && |r.value| == |entries|
    ensures forall i :: 0 <= i < |entries| ==> r.value[i].importedPackages == entries[i].importedPackages
    ensures forall i :: 0 <= i < |entries| ==>
      r.value[i].shaderMapHashes == match v
        case PreInitial => []
        case Initial => []
        case LocalizedPackages => entries[i].shaderMapHashes
        case OptionalSegmentPackages => entries[i].shaderMapHashes
        case NoExportInfo => entries[i].shaderMapHashes
        case SoftPackageReferences => entries[i].shaderMapHashes
    ensures forall i :: 0 <= i < |entries| ==>
      (r.value[i].exportCount, r.value[i].exportBundleCount) == match v
        case PreInitial => (entries[i].exportCount, entries[i].exportBundleCount)
        case Initial => (entries[i].exportCount, entries[i].exportBundleCount)
        case LocalizedPackages => (entries[i].exportCount, entries[i].exportBundleCount)
        case OptionalSegmentPackages => (entries[i].exportCount, entries[i].exportBundleCount)
        case NoExportInfo => (0, 0)
        case SoftPackageReferences => (0, 0)
    ensures forall i :: 0 <= i < |entries| ==>
      (r.value[i].exportBundlesSize, r.value[i].loadOrder)
      == if v.Initial? then (entries[i].exportBundlesSize, entries[i].loadOrder) else (0, 0)
  {
    var buffer := WriteEntries(v, entries);
    r := ReadEntries(buffer, v, |entries|, entries);
  }

  /** Entries and arrays lie apart. */
  lemma {:induction false} PartsApart(v: Version, entries: seq<StoreEntry>, i: nat, j: nat)
    requires i < j < |entries|
    ensures EntryStart(v, i) + EntrySize(v) <= EntryStart(v, j)
    ensures EntryStart(v, j) + EntrySize(v) <= ArrayStart(v, entries, i)
    ensures ArrayStart(v, entries, i) + |ArrayBytes(v, entries[i])| <= ArrayStart(v, entries, j)
  {
    EntryStartGrows(v, i, j);
    EntryStartGrows(v, j, |entries|);
    ArrayStartGrows(v, entries, i, j);
  }
}
