/** Legacy arcs between bundles of different packages: written with placeholders, fixed up in place, read back. */
module LegacyArcs {
  import opened Package
  import opened Bytes
  import opened ExportBundles

  /** The arcs from one imported package as graph data stores them; packages without arcs are left out. */
  datatype PackageArcs = PackageArcs(id: nat, arcs: seq<BundleArc>)

  ghost predicate Storable(data: seq<PackageArcs>) {
    && IsI32(|data|)
    && forall p :: 0 <= p < |data| ==> data[p].id < Range(8) && IsI32(|data[p].arcs|) && ArcsStorable(data[p].arcs)
  }

  ghost predicate ArcsStorable(arcs: seq<BundleArc>) {
    forall a :: a in arcs ==> IsI32(a.from) && IsI32(a.to)
  }

  // ---- Where everything is ----

  /** Offset of the record of package `p`: 12 bytes of package id and count, then 8 bytes per arc. */
  function RecordAt(base: nat, data: seq<PackageArcs>, p: nat): nat
    requires p <= |data|
  {
    if p == 0 then base + 4 else RecordAt(base, data, p - 1) + 12 + 8 * |data[p - 1].arcs|
  }

  function ArcAt(base: nat, data: seq<PackageArcs>, p: nat, k: nat): nat
    requires p < |data|
  {
    RecordAt(base, data, p) + 12 + 8 * k
  }

  ghost predicate WordAt(buffer: seq<byte>, at: nat, v: int) {
    at + 4 <= |buffer| && buffer[at..at + 4] == I32(v)
  }

  ghost predicate RecordWritten(buffer: seq<byte>, base: nat, data: seq<PackageArcs>, p: nat)
    requires p < |data|
  {
    var at := RecordAt(base, data, p);
    && at + 12 <= |buffer| && buffer[at..at + 8] == Le(data[p].id, 8) && WordAt(buffer, at + 8, |data[p].arcs|)
    && forall k :: 0 <= k < |data[p].arcs| ==> ArcWritten(buffer, ArcAt(base, data, p, k), data[p].arcs[k])
  }

  ghost predicate ArcWritten(buffer: seq<byte>, at: nat, a: BundleArc) {
    WordAt(buffer, at, a.from) && WordAt(buffer, at + 4, a.to)
  }

  /** `buffer` holds the graph data at `base`. */
  ghost predicate Written(buffer: seq<byte>, base: nat, data: seq<PackageArcs>) {
    && WordAt(buffer, base, |data|)
    && forall p :: 0 <= p < |data| ==> RecordWritten(buffer, base, data, p)
  }

  /** `offsets` are the places of the source words of all arcs, in increasing order. */
  ghost predicate ArcOffsets(offsets: seq<nat>, base: nat, data: seq<PackageArcs>, packages: nat)
    requires packages <= |data|
  {
    && (forall i, j :: 0 <= i < j < |offsets| ==> offsets[i] + 8 <= offsets[j])
    && (forall o ::
        o in offsets ==>
        base + 4 <= o && o + 8 <= RecordAt(base, data, packages) && IsArcOffset(o, base, data, packages))
    && (forall p, k :: 0 <= p < packages && 0 <= k < |data[p].arcs| ==> ArcAt(base, data, p, k) in offsets)
  }

  ghost predicate IsArcOffset(o: nat, base: nat, data: seq<PackageArcs>, packages: nat)
    requires packages <= |data|
  {
    exists p, k :: 0 <= p < packages && 0 <= k < |data[p].arcs| && o == ArcAt(base, data, p, k)
  }

  lemma {:induction false} RecordsGrow(base: nat, data: seq<PackageArcs>, p: nat, q: nat)
    requires p < q <= |data|
    ensures RecordAt(base, data, p) + 12 + 8 * |data[p].arcs| <= RecordAt(base, data, q)
  {
    if p < q - 1 {
      RecordsGrow(base, data, p, q - 1);
    }
  }

  // ---- Writing ----

  /** Appending the arcs of one record. */
  method WriteArcs(before: seq<byte>, arcs: seq<BundleArc>) returns (after: seq<byte>, offsets: seq<nat>)
    ensures before <= after && |after| == |before| + 8 * |arcs|
    ensures forall k :: 0 <= k < |arcs| ==> ArcWritten(after, |before| + 8 * k, arcs[k])
    ensures |offsets| == |arcs| && forall k :: 0 <= k < |arcs| ==> offsets[k] == |before| + 8 * k
  {
    after, offsets := before, [];
    for k := 0 to |arcs|
      invariant before <= after && |after| == |before| + 8 * k
      invariant forall i :: 0 <= i < k ==> ArcWritten(after, |before| + 8 * i, arcs[i])
      invariant |offsets| == k && forall i :: 0 <= i < k ==> offsets[i] == |before| + 8 * i
    {
      ghost var previous := after;
      offsets := offsets + [|after|];
      after := after + I32(arcs[k].from) + I32(arcs[k].to);
      assert ArcWritten(after, |before| + 8 * k, arcs[k]);
      forall i | 0 <= i < k ensures ArcWritten(after, |before| + 8 * i, arcs[i]) {
        ArcStays(previous, after, |before| + 8 * i, arcs[i]);
      }
    }
  }

  lemma {:induction false} ArcStays(before: seq<byte>, after: seq<byte>, at: nat, a: BundleArc)
    requires before <= after && ArcWritten(before, at, a)
    ensures ArcWritten(after, at, a)
  {
    assert after[at..at + 4] == before[at..at + 4];
    assert after[at + 4..at + 8] == before[at + 4..at + 8];
  }

  lemma {:induction false} RecordStays(before: seq<byte>, after: seq<byte>, base: nat, data: seq<PackageArcs>, p: nat)
    requires before <= after && p < |data| && RecordWritten(before, base, data, p)
    ensures RecordWritten(after, base, data, p)
  {
    var at := RecordAt(base, data, p);
    assert after[at..at + 8] == before[at..at + 8];
    assert after[at + 8..at + 8 + 4] == before[at + 8..at + 8 + 4];
    forall k | 0 <= k < |data[p].arcs| ensures ArcWritten(after, ArcAt(base, data, p, k), data[p].arcs[k]) {
      ArcStays(before, after, ArcAt(base, data, p, k), data[p].arcs[k]);
    }
  }

  /** One more record after the first `p`. */
  method WriteRecord(before: seq<byte>, ghost base: nat, data: seq<PackageArcs>, p: nat, offsets: seq<nat>)
    returns (after: seq<byte>, offsets': seq<nat>)
    requires p < |data| && |before| == RecordAt(base, data, p) && ArcOffsets(offsets, base, data, p)
    ensures before <= after && |after| == RecordAt(base, data, p + 1)
    ensures RecordWritten(after, base, data, p)
    ensures ArcOffsets(offsets', base, data, p + 1)
  {
    var head := before + Le(data[p].id, 8) + I32(|data[p].arcs|);
    var more;
    after, more := WriteArcs(head, data[p].arcs);
    offsets' := offsets + more;
    var at := |before|;
    assert head[at..at + 8] == Le(data[p].id, 8) && head[at + 8..at + 8 + 4] == I32(|data[p].arcs|);
    assert after[at..at + 8] == head[at..at + 8] && after[at + 8..at + 8 + 4] == head[at + 8..at + 8 + 4];
    OffsetsExtend(offsets, more, base, data, p);
  }

  lemma {:induction false} OffsetsExtend(offsets: seq<nat>, more: seq<nat>, base: nat, data: seq<PackageArcs>, p: nat)
    requires p < |data| && ArcOffsets(offsets, base, data, p) && |more| == |data[p].arcs|
    requires forall k :: 0 <= k < |more| ==> more[k] == ArcAt(base, data, p, k)
    ensures ArcOffsets(offsets + more, base, data, p + 1)
  {
    var all := offsets + more;
    forall o | o in all
      ensures base + 4 <= o && o + 8 <= RecordAt(base, data, p + 1) && IsArcOffset(o, base, data, p + 1)
    {
      if o in offsets {
        assert IsArcOffset(o, base, data, p);
        var q, k :| 0 <= q < p && 0 <= k < |data[q].arcs| && o == ArcAt(base, data, q, k);
      } else {
        var k :| 0 <= k < |more| && more[k] == o;
        assert o == ArcAt(base, data, p, k);
        RecordBeyondBase(base, data, p);
      }
    }
    forall i, j | 0 <= i < j < |all| ensures all[i] + 8 <= all[j] {
      if i < |offsets| {
        assert offsets[i] in offsets;
      }
    }
    forall q, k | 0 <= q < p + 1 && 0 <= k < |data[q].arcs| ensures ArcAt(base, data, q, k) in all {
      if q == p {
        assert more[k] in more;
      }
    }
  }

  lemma {:induction false} RecordBeyondBase(base: nat, data: seq<PackageArcs>, p: nat)
    requires p <= |data|
    ensures RecordAt(base, data, p) >= base + 4
  {
    if p > 0 {
      RecordBeyondBase(base, data, p - 1);
    }
  }

  /** The old style graph data of `FZenPackageHeader::serialize`, after the sections in `before`. */
  method WriteLegacyGraph(before: seq<byte>, ids: seq<nat>, arcs: seq<seq<BundleArc>>)
    returns (after: seq<byte>, offsets: seq<nat>, ghost data: seq<PackageArcs>)
    requires |ids| == |arcs|
    ensures data == NonEmpty(ids, arcs, |ids|)
    ensures before <= after && Written(after, |before|, data)
    ensures ArcOffsets(offsets, |before|, data, |data|) && RecordAt(|before|, data, |data|) == |after|
  {
    var kept: seq<PackageArcs> := [];
    for p := 0 to |ids|
      invariant kept == NonEmpty(ids, arcs, p)
    {
      if arcs[p] != [] {
        kept := kept + [PackageArcs(ids[p], arcs[p])];
      }
    }
    data := kept;
    after, offsets := before + I32(|kept|), [];
    assert after[|before|..|before| + 4] == I32(|kept|);
    for p := 0 to |kept|
      invariant before + I32(|kept|) <= after && |after| == RecordAt(|before|, kept, p)
      invariant WordAt(after, |before|, |kept|)
      invariant forall q :: 0 <= q < p ==> RecordWritten(after, |before|, kept, q)
      invariant ArcOffsets(offsets, |before|, kept, p)
    {
      ghost var previous := after;
      after, offsets := WriteRecord(after, |before|, kept, p, offsets);
      assert after[|before|..|before| + 4] == previous[|before|..|before| + 4];
      forall q | 0 <= q < p ensures RecordWritten(after, |before|, kept, q) {
        RecordStays(previous, after, |before|, kept, q);
      }
    }
  }

  /** The packages that have arcs, in import order. */
  ghost function NonEmpty(ids: seq<nat>, arcs: seq<seq<BundleArc>>, n: nat): seq<PackageArcs>
    requires n <= |ids| == |arcs|
  {
    if n == 0 then []
    else NonEmpty(ids, arcs, n - 1) + if arcs[n - 1] != [] then [PackageArcs(ids[n - 1], arcs[n - 1])] else []
  }

  // ---- Reading ----

  method ReadArcs(buffer: seq<byte>, at: nat, count: nat, ghost arcs: seq<BundleArc>) returns (r: seq<BundleArc>)
    requires count == |arcs| && ArcsStorable(arcs)
    requires forall k :: 0 <= k < |arcs| ==> ArcWritten(buffer, at + 8 * k, arcs[k]) && 0 <= arcs[k].to
    ensures r == arcs
  {
    r := [];
    for k := 0 to count
      invariant r == arcs[..k]
    {
      var here := at + 8 * k;
      assert ArcWritten(buffer, here, arcs[k]) && arcs[k] in arcs;
      I32RoundTrip(arcs[k].from);
      I32RoundTrip(arcs[k].to);
      r := r + [BundleArc(ToI32(buffer[here..here + 4]), ToI32(buffer[here + 4..here + 8]))];
    }
  }

  /** The old style graph data of `FZenPackageHeader::deserialize`: what was written comes back. */
  method ReadLegacyGraph(buffer: seq<byte>, base: nat, ghost data: seq<PackageArcs>) returns (r: seq<PackageArcs>)
    requires Written(buffer, base, data) && Storable(data)
    requires forall p, a :: 0 <= p < |data| && a in data[p].arcs ==> 0 <= a.to
    ensures r == data
  {
    r := [];
    I32RoundTrip(|data|);
    var count := ToI32(buffer[base..base + 4]);
    var at := base + 4;
    for p := 0 to count
      invariant at == RecordAt(base, data, p) && r == data[..p]
    {
      assert RecordWritten(buffer, base, data, p);
      LeRoundTrip(data[p].id, 8);
      I32RoundTrip(|data[p].arcs|);
      var id, arcCount := FromLe(buffer[at..at + 8]), ToI32(buffer[at + 8..at + 8 + 4]);
      forall k | 0 <= k < |data[p].arcs|
        ensures ArcWritten(buffer, at + 12 + 8 * k, data[p].arcs[k]) && 0 <= data[p].arcs[k].to {
        assert ArcWritten(buffer, ArcAt(base, data, p, k), data[p].arcs[k]) && data[p].arcs[k] in data[p].arcs;
      }
      var arcs := ReadArcs(buffer, at + 12, arcCount, data[p].arcs);
      r := r + [PackageArcs(id, arcs)];
      at := at + 12 + 8 * arcCount;
    }
  }

  // ---- Fixing up ----

  /** The first fix-up record with the placeholder's number. */
  function FindFixup(fixups: seq<ArcFixup>, id: int): Option<ArcFixup> {
    if fixups == [] then None
    else if fixups[0].id == id then Some(fixups[0])
    else FindFixup(fixups[1..], id)
  }

  /** The first entry for the export and command. */
  function FindEntry(entries: seq<PublicEntry>, objectIndex: nat, command: Command): Option<PublicEntry> {
    if entries == [] then None
    else if entries[0].objectIndex == objectIndex && entries[0].command == command then Some(entries[0])
    else FindEntry(entries[1..], objectIndex, command)
  }

  /** The source bundle that replaces a placeholder; -1 when the imported package has not been converted. */
  function Target(fixups: seq<ArcFixup>, imported: seq<Option<seq<PublicEntry>>>, placeholder: int): Result<int> {
    match FindFixup(fixups, placeholder)
    case None => Failure("Failed to find fixup data for placeholder ID")
    case Some(fixup) =>
      if fixup.importedPackage >= |imported| || imported[fixup.importedPackage].None?
        then var last: int := -1; Success(last)
      else
        match FindEntry(imported[fixup.importedPackage].value, fixup.objectIndex, fixup.command)
        case None => Failure("Failed to find export in the package mapping to the import")
        case Some(entry) => Success(entry.bundle)
  }

  /** The target of the placeholder that `bytes` holds at `o`. */
  function TargetAt(fixups: seq<ArcFixup>, imported: seq<Option<seq<PublicEntry>>>, bytes: seq<byte>, o: nat):
    Result<int>
    requires o + 4 <= |bytes|
  {
    Target(fixups, imported, ToI32(bytes[o..o + 4]))
  }

  /** The placeholder that `was` holds at `o` has a target, which `now` holds there. */
  ghost predicate FixedAt(fixups: seq<ArcFixup>, imported: seq<Option<seq<PublicEntry>>>, was: seq<byte>,
                          now: seq<byte>, o: nat)
  {
    o + 4 <= |was| && TargetAt(fixups, imported, was, o).Success? &&
      WordAt(now, o, TargetAt(fixups, imported, was, o).value)
  }

  predicate InWord(offsets: seq<nat>, i: nat) {
    exists o :: o in offsets && o <= i < o + 4
  }

  /** `ConvertedZenAssetBundle`, as far as the fix-up goes. */
  class ConvertedPackage {
    const packageBuffer: array<byte>
    const arcOffsets: seq<nat>
    const fixups: seq<ArcFixup>

    constructor (packageBuffer: array<byte>, arcOffsets: seq<nat>, fixups: seq<ArcFixup>)
      ensures this.packageBuffer == packageBuffer && this.arcOffsets == arcOffsets && this.fixups == fixups
    {
      this.packageBuffer, this.arcOffsets, this.fixups := packageBuffer, arcOffsets, fixups;
    }

    method WriteWord(at: nat, v: int)
      requires at + 4 <= packageBuffer.Length
      modifies packageBuffer
      ensures WordAt(packageBuffer[..], at, v)
      ensures forall i ::
        0 <= i < packageBuffer.Length && !(at <= i < at + 4) ==> packageBuffer[i] == old(packageBuffer[i])
    {
      var word := I32(v);
      packageBuffer[at], packageBuffer[at + 1], packageBuffer[at + 2], packageBuffer[at + 3] := word[0], word[1],
        word[2], word[3];
      assert packageBuffer[..][at..at + 4] == word;
    }

    /** The fix-up of one arc: every other source word and every byte outside them stays. */
    method FixArc(imported: seq<Option<seq<PublicEntry>>>, m: nat) returns (r: Result<()>)
      requires forall i, j :: 0 <= i < j < |arcOffsets| ==> arcOffsets[i] + 4 <= arcOffsets[j]
      requires forall i :: 0 <= i < |arcOffsets| ==> arcOffsets[i] + 4 <= packageBuffer.Length
      requires m < |arcOffsets|
      modifies packageBuffer
      ensures r.Success? <==> TargetAt(fixups, imported, old(packageBuffer[..]), arcOffsets[m]).Success?
      ensures r.Success? ==> FixedAt(fixups, imported, old(packageBuffer[..]), packageBuffer[..], arcOffsets[m])
      ensures forall i ::
        0 <= i < |arcOffsets| && i != m ==> SameWord(old(packageBuffer[..]), packageBuffer[..], arcOffsets[i])
      ensures forall i ::
        0 <= i < packageBuffer.Length && !(arcOffsets[m] <= i < arcOffsets[m] + 4) ==>
        packageBuffer[i] == old(packageBuffer[i])
    {
      var o := arcOffsets[m];
      var target := TargetAt(fixups, imported, packageBuffer[..], o);
      if target.Failure? {
        return Failure(target.error);
      }
      WriteWord(o, target.value);
      r := Success(());
    }

    /**
     * `fixup_legacy_external_arcs`. On success every placeholder has been replaced by its target; the fix-up
     * succeeds exactly when every placeholder has one, and it never touches a byte outside the arcs' source words.
     */
    method FixupLegacyExternalArcs(imported: seq<Option<seq<PublicEntry>>>) returns (r: Result<()>)
      requires forall i, j :: 0 <= i < j < |arcOffsets| ==> arcOffsets[i] + 4 <= arcOffsets[j]
      requires forall o :: o in arcOffsets ==> o + 4 <= packageBuffer.Length
      modifies packageBuffer
      ensures r.Success? <==> forall o ::
        o in arcOffsets ==> TargetAt(fixups, imported, old(packageBuffer[..]), o).Success?
      ensures r.Success? ==> forall o ::
        o in arcOffsets ==> FixedAt(fixups, imported, old(packageBuffer[..]), packageBuffer[..], o)
      ensures forall i ::
        0 <= i < packageBuffer.Length && !InWord(arcOffsets, i) ==> packageBuffer[i] == old(packageBuffer[i])
    {
      ghost var was := packageBuffer[..];
      assert forall i :: 0 <= i < |arcOffsets| ==> arcOffsets[i] in arcOffsets;
      for m := 0 to |arcOffsets|
        invariant forall i :: 0 <= i < m ==> FixedAt(fixups, imported, was, packageBuffer[..], arcOffsets[i])
        invariant forall i :: m <= i < |arcOffsets| ==> SameWord(was, packageBuffer[..], arcOffsets[i])
        invariant forall i :: 0 <= i < packageBuffer.Length && !InWord(arcOffsets, i) ==> packageBuffer[i] == was[i]
      {
        assert SameWord(was, packageBuffer[..], arcOffsets[m]);
        r := FixArc(imported, m);
        if r.Failure? {
          return;
        }
      }
      r := Success(());
    }
  }

  ghost predicate SameWord(a: seq<byte>, b: seq<byte>, o: nat) {
    o + 4 <= |a| && o + 4 <= |b| && a[o..o + 4] == b[o..o + 4]
  }

  // ---- What the fixed-up arcs say ----

  ghost function FixedArcs(arcs: seq<BundleArc>, fixups: seq<ArcFixup>, imported: seq<Option<seq<PublicEntry>>>):
    seq<BundleArc>
    requires forall a :: a in arcs ==> Target(fixups, imported, a.from).Success?
  {
    seq(|arcs|, k requires 0 <= k < |arcs| => BundleArc(Target(fixups, imported, arcs[k].from).value, arcs[k].to))
  }

  ghost predicate AllFound(data: seq<PackageArcs>, fixups: seq<ArcFixup>, imported: seq<Option<seq<PublicEntry>>>) {
    forall p, a :: 0 <= p < |data| && a in data[p].arcs ==> Target(fixups, imported, a.from).Success?
  }

  ghost function Fixed(data: seq<PackageArcs>, fixups: seq<ArcFixup>, imported: seq<Option<seq<PublicEntry>>>):
    seq<PackageArcs>
    requires AllFound(data, fixups, imported)
  {
    seq(|data|, p requires 0 <= p < |data| => PackageArcs(data[p].id, FixedArcs(data[p].arcs, fixups, imported)))
  }

  lemma {:induction false} FixedLayout(base: nat, data: seq<PackageArcs>, fixups: seq<ArcFixup>,
                                       imported: seq<Option<seq<PublicEntry>>>, p: nat)
    requires AllFound(data, fixups, imported) && p <= |data|
    ensures RecordAt(base, Fixed(data, fixups, imported), p) == RecordAt(base, data, p)
  {
    if p > 0 {
      FixedLayout(base, data, fixups, imported, p - 1);
    }
  }

  /** A byte before the next source word, after this one, or outside the graph data is in no source word. */
  lemma {:induction false} NotInWord(offsets: seq<nat>, base: nat, data: seq<PackageArcs>, p: nat, i: nat)
    requires ArcOffsets(offsets, base, data, |data|) && p < |data|
    requires RecordAt(base, data, p) <= i < RecordAt(base, data, p) + 12
    ensures !InWord(offsets, i)
  {
    forall o | o in offsets ensures !(o <= i < o + 4) {
      assert IsArcOffset(o, base, data, |data|);
      var q, k :| 0 <= q < |data| && 0 <= k < |data[q].arcs| && o == ArcAt(base, data, q, k);
      if q < p {
        RecordsGrow(base, data, q, p);
      } else if p < q {
        RecordsGrow(base, data, p, q);
      }
    }
  }

  lemma {:induction false} NotInWordTo(offsets: seq<nat>, base: nat, data: seq<PackageArcs>, p: nat, k: nat, i: nat)
    requires ArcOffsets(offsets, base, data, |data|) && p < |data| && k < |data[p].arcs|
    requires ArcAt(base, data, p, k) + 4 <= i < ArcAt(base, data, p, k) + 8
    ensures !InWord(offsets, i)
  {
    forall o | o in offsets ensures !(o <= i < o + 4) {
      var m :| 0 <= m < |offsets| && offsets[m] == o;
      var mine :| 0 <= mine < |offsets| && offsets[mine] == ArcAt(base, data, p, k);
      if m < mine {
        assert offsets[m] + 8 <= offsets[mine];
      } else if mine < m {
        assert offsets[mine] + 8 <= offsets[m];
      }
    }
  }

  /** The effect of the fix-up on a buffer, as `FixupLegacyExternalArcs` promises it. */
  ghost predicate FixedUp(was: seq<byte>, now: seq<byte>, offsets: seq<nat>, fixups: seq<ArcFixup>,
                          imported: seq<Option<seq<PublicEntry>>>)
  {
    && |now| == |was|
    && (forall o :: o in offsets ==> FixedAt(fixups, imported, was, now, o))
    && (forall i :: 0 <= i < |was| && !InWord(offsets, i) ==> now[i] == was[i])
  }

  lemma {:induction false} ArcFixedUp(was: seq<byte>, now: seq<byte>, offsets: seq<nat>, base: nat,
                                      data: seq<PackageArcs>, fixups: seq<ArcFixup>,
                                      imported: seq<Option<seq<PublicEntry>>>, p: nat, k: nat)
    requires Written(was, base, data) && Storable(data) && ArcOffsets(offsets, base, data, |data|)
    requires FixedUp(was, now, offsets, fixups, imported)
    requires p < |data| && k < |data[p].arcs|
    ensures Target(fixups, imported, data[p].arcs[k].from).Success?
    ensures ArcWritten(now, ArcAt(base, data, p, k),
                       BundleArc(Target(fixups, imported, data[p].arcs[k].from).value, data[p].arcs[k].to))
  {
    var at, a := ArcAt(base, data, p, k), data[p].arcs[k];
    assert a in data[p].arcs;
    assert RecordWritten(was, base, data, p) && ArcWritten(was, at, a);
    assert at in offsets;
    I32RoundTrip(a.from);
    forall i | at + 4 <= i < at + 8 ensures now[i] == was[i] {
      NotInWordTo(offsets, base, data, p, k, i);
    }
    assert now[at + 4..at + 8] == was[at + 4..at + 8];
  }

  /** After the fix-up the buffer holds the same graph data, with every placeholder replaced by its target. */
  lemma {:induction false} FixupReplacesPlaceholders(was: seq<byte>, now: seq<byte>, offsets: seq<nat>, base: nat,
                                                     data: seq<PackageArcs>, fixups: seq<ArcFixup>,
                                                     imported: seq<Option<seq<PublicEntry>>>)
    requires Written(was, base, data) && Storable(data) && ArcOffsets(offsets, base, data, |data|)
    requires FixedUp(was, now, offsets, fixups, imported)
    ensures AllFound(data, fixups, imported)
    ensures Written(now, base, Fixed(data, fixups, imported))
  {
    forall p, a | 0 <= p < |data| && a in data[p].arcs ensures Target(fixups, imported, a.from).Success? {
      var k :| 0 <= k < |data[p].arcs| && data[p].arcs[k] == a;
      ArcFixedUp(was, now, offsets, base, data, fixups, imported, p, k);
    }
    var fixed := Fixed(data, fixups, imported);
    forall i | base <= i < base + 4 ensures now[i] == was[i] {
      forall o | o in offsets ensures !(o <= i < o + 4) {
      }
    }
    assert now[base..base + 4] == was[base..base + 4];
    forall p | 0 <= p < |fixed| ensures RecordWritten(now, base, fixed, p) {
      RecordFixedUp(was, now, offsets, base, data, fixups, imported, p);
    }
  }

  lemma {:induction false} RecordFixedUp(was: seq<byte>, now: seq<byte>, offsets: seq<nat>, base: nat,
                                         data: seq<PackageArcs>, fixups: seq<ArcFixup>,
                                         imported: seq<Option<seq<PublicEntry>>>, p: nat)
    requires Written(was, base, data) && Storable(data) && ArcOffsets(offsets, base, data, |data|)
    requires FixedUp(was, now, offsets, fixups, imported)
    requires AllFound(data, fixups, imported) && p < |data|
    ensures RecordWritten(now, base, Fixed(data, fixups, imported), p)
  {
    var at := RecordAt(base, data, p);
    FixedLayout(base, data, fixups, imported, p);
    assert RecordWritten(was, base, data, p);
    forall i | at <= i < at + 12 ensures now[i] == was[i] {
      NotInWord(offsets, base, data, p, i);
    }
    assert now[at..at + 8] == was[at..at + 8];
    assert now[at + 8..at + 8 + 4] == was[at + 8..at + 8 + 4];
    var fixed := Fixed(data, fixups, imported);
    forall k | 0 <= k < |fixed[p].arcs| ensures ArcWritten(now, ArcAt(base, fixed, p, k), fixed[p].arcs[k]) {
      ArcFixedUp(was, now, offsets, base, data, fixups, imported, p, k);
    }
  }
}
