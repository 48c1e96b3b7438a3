# Verified model of retoc

retoc converts Unreal packages between the Zen (IoStore) layout and the legacy layout and reads and writes the
container files around them. This project models the parts of it that are index and offset arithmetic, dependency
graphs and in-place tables, and proves what they promise. `dafny verify dfyconfig.toml` checks all of it.

The modules follow the program:

- **Dependencies of exports.** `LoadOrder` is the heap-based sort, `PreloadDependencies` what it sorts,
  `ExportBundles` cuts the load order into bundles and arcs, `ArcDependencies` rebuilds dependencies from them,
  `ArcMeaning` and `ArcRoundTrip` say that nothing is lost and the rebuilt lists have no cycle. `LegacyArcs`,
  `LegacyArcMeaning` and `LegacyRoundTrip` are the arcs between packages of legacy containers with their placeholders
  and fix-up. `FinishedPackages` says when packages that came back can be converted again. `DependencyBundles` and
  `BundleRoundTrip` are the newer per-export bundles.
- **Imports and names.** `ImportTrees`, `ImportRebuild`, `LegacyPackages`, `PackageNames`.
- **Export data.** `ExportData`.
- **Containers.** `PackedFields`, `Codecs`, `Containers`, `ContainerWriter`, `Repack`, `Publish`, `DirectoryTree`,
  `DirectoryIndex`, `FilePool`.
- **Shader libraries.** `ShaderGroups`, `ShaderPartition`, `ShaderSplit`, `ShaderPacking`, `ShaderLayout`,
  `ShaderArchive`, `ShaderRoundTrip`, `ShaderCodeLayout`, `ShaderCodeFile`, `ShaderPreloads`.
- **Binary layouts.** `Bytes`, `Cursors`, `Records`, `StoreEntries`, `ZenLayout`, `ZenReader`, `ZenRoundTrip`.
- `Package` and `Sorting` hold what several of these share.

Objects that the program updates in place are classes here (the package builder, the legacy package, the name and
import maps, the container writer, the directory index, the file system of a publish, the file pool, the shader code
writer). Codecs and the block cipher are function values in a `Codec` of which only laws are known: decompression
inverts compression, and decryption of a block inverts its encryption, both with outputs of the right size. Hash maps
are maps whose iteration order is arbitrary. Concurrency in the file pool is a state machine whose steps are what
happens under the lock, with spurious wake-ups.

Preconditions are those of the program: block sizes are positive, packed fields are wide enough for what the writer
puts into them, exports files that are moved into bundle order have at least four bytes, names hold no NUL.

Where a computation overflows, underflows or indexes out of bounds the model fails, as arithmetic does when it is
checked. `Cargo.toml` sets no profile for that, so a release build wraps instead: the subtraction and addition at
src/shader_library.rs:1227 then come out right for a group one longer than the indices, and far too large for longer
ones.

What the proofs brought to light about the code:

- `ShaderPacking.LimitCanBeExceeded`: a split shader group can exceed the maximum size, contrary to the comment at
  src/shader_library.rs:1146. It stays within the maximum, or below it without its smallest shader, and below twice the
  maximum. `ShaderPacking.SplitWithinLimit` says when the maximum itself holds.
- `ShaderPacking.EmptyCodeLeavesEmptyGroup`: shaders of size zero can leave a group empty, which then has no first
  shader at src/shader_library.rs:1226. By `ShaderPacking.FilledIffPositives` no group stays empty exactly when there
  are at most one more groups than shaders with code.
- `ShaderRoundTrip.ReadArchive`: an archive with a shader of size zero can be written but not read, since the last check
  takes empty code for a missing shader; `ShaderRoundTrip.ZeroSizeIsNotRead` has such a library.
- `FinishedPackages.ClassBehindIsNotAhead`: outer, super, class and template are added to rebuilt lists that already
  order all commands of a legacy container, so a package whose lists did not name them can come back with circular
  lists. `FinishedPackages.LoadableIffAhead` says exactly when.
- `ShaderLayout.BuildHeader`: a group longer than the indices it is searched in makes src/shader_library.rs:1227
  underflow. By `ShaderLayout.FewUnnamedFits` this cannot happen when every shader is in the indices, or when the
  shaders that no map names are no more than there are indices; by `ShaderLayout.NoIndicesNeverFits` it always happens
  when there are shaders and no indices.
- `ContainerWriter.IoStoreWriter.ReadBack`: an empty chunk that no data precedes cannot be read back, since the
  subtraction at src/lib.rs:2305 underflows; every other chunk can.
- `BundleRoundTrip.MutualListsAreCircular`: a zen package in which two exports have each other in their lists converts to
  legacy but not back; `BundleRoundTrip.ZenToLegacyToZen` says exactly which packages do.
- `ExportData.ConvertExportsAndBack`: before container version NoExportInfo an exports file without trailing tag comes
  back with one, and the file of a package without exports loses the tag that it has.
- `PackageNames.NumberFits`: a name that ends in `_2147483647` overflows the stored number.
- `FilePool.StuckIffNoHandles`: with a limit of zero handles the first caller waits for ever; otherwise nobody can.
- `ZenRoundTrip.UnversionedLayout`: a reader without version hint goes by the wrong layout for unversioned packages whose
  file version is not the usual one of the container version, for example a 5.0 container with data resources.
- `Repack.SameConfigFindsKey`: a container repacked with a write key or guid of its own need not be opened with the key
  it was written with; the lemma says for which configurations it is, and `Repack.RepackContainer` that it then reads as
  before. `Repack.WrittenKeyIsLost` is one for which it is not.
- `Repack.RepackBlock`: the size limit in src/iostore_repack.rs:114 is never reached.

## Model

| member | source | states |
|---|---|---|
| `LoadOrder.FirstExists` | src/zen_asset_conversion.rs:1910-1928 | Every non-empty set of ready nodes has a best node under the ordering (public first, then Create, then lower index). |
| `LoadOrder.CountIncomingEdges` | src/zen_asset_conversion.rs:1935-1942 | Whatever order the hash map is walked in, every node ends with the number of edges that lead to it, repeated edges counted. |
| `LoadOrder.PopBest` | src/zen_asset_conversion.rs:1945-1957 | What the heap hands out is the best of the nodes whose dependencies have all been emitted: a public command only before private ones, among equals a Create before Serialize, then the lower export index. |
| `LoadOrder.ReleaseDependants` | src/zen_asset_conversion.rs:1959-1971 | After an emitted node is discounted the counts are again those of the remaining edges, and the heap holds exactly the free nodes. |
| `LoadOrder.SortInLoadOrder` | src/zen_asset_conversion.rs:1931-1979 | The heap sort succeeds exactly on graphs without a cycle and returns the greedy order: a permutation in which every dependency precedes its dependants, and a command that was ready earlier but comes later is not public where the earlier one is private, nor a Create where it is a Serialize of the same visibility, nor of a lower index. |
| `LoadOrder.GreedyCompleteIffAcyclic` | src/zen_asset_conversion.rs:1953-1978 | Emitting best ready nodes reaches every node if and only if the multigraph has no cycle. |
| `LoadOrder.EdgesGoForward` | src/zen_asset_conversion.rs:1931-1979 | In an acyclic graph every edge leads from an earlier to a later position of the order. |
| `LoadOrder.GreedyEmitsBest` | src/zen_asset_conversion.rs:1953-1972 | At every position the order has the best node that is ready there. |
| `LoadOrder.BestIsUnique` | src/zen_asset_conversion.rs:1910-1979 | No other sequence has that property, so the specification fixes the result. |
| `LoadOrder.ReadyInOrder` | src/zen_asset_conversion.rs:1910-1928 | Of two commands that are ready at the same position the order has the public one first, then the Create, then the one with the lower export index. |
| `LoadOrder.OrderDependsOnEdgesOnly` | src/zen_asset_conversion.rs:1931-1979 | Graphs with the same nodes and edges give the same order: list order and hash iteration do not matter. |
| `PreloadDependencies.PushRange` | src/zen_asset_conversion.rs:2008-2069 | A run of the flat table becomes exactly that many dependencies on one command, in order. |
| `PreloadDependencies.CollectDependencies` | src/zen_asset_conversion.rs:1981-2086 | The dependency map holds, for both commands of every export, what the four runs of the flat table name, and Serialize also depends on Create. |
| `PreloadDependencies.MapHoldsRuns` | src/zen_asset_conversion.rs:2008-2069 | The runs of an export lie behind each other from its first dependency on: serialize and create before serialize, then serialize and create before create; each command waits for the two runs that are its own. |
| `PreloadDependencies.ReverseDependencies` | src/zen_asset_conversion.rs:2088-2114 | The reversed map has an edge from one command to another exactly when the second depends on the first. |
| `PreloadDependencies.CycleIffCircular` | src/zen_asset_conversion.rs:2088-2118 | The graph that is sorted has a cycle exactly when some command depends on itself through others. |
| `PreloadDependencies.BuildLoadOrder` | src/zen_asset_conversion.rs:1981-2127 | Succeeds exactly when no command depends on itself; then all commands are ordered and each comes after everything it depends on. |
| `ExportBundles.ZenPackageBuilder.CutBundles` | src/zen_asset_conversion.rs:1514-1599 | The load order is cut into consecutive non-empty bundles, which end at the commands of public exports and, but for the last one, nowhere else; headers start where the data before them ends, and the public commands are recorded with the bundle they close. |
| `ExportBundles.CutAtPublic` | src/zen_asset_conversion.rs:1530-1598 | No command of a bundle but its last is public, and the last one is, unless the bundle is the last of all. |
| `ExportBundles.ZenPackageBuilder.AddInternalArc` | src/zen_asset_conversion.rs:1611-1633 | A dependency between bundles gives one arc, listed once; dependencies within a bundle give none. |
| `ExportBundles.ZenPackageBuilder.AddImportArc` | src/zen_asset_conversion.rs:1634-1664 | A dependency on an import gives one external arc, listed once with its imported package. |
| `ExportBundles.ZenPackageBuilder.AddLegacyArc` | src/zen_asset_conversion.rs:1665-1717 | A dependency on another package gets a placeholder number of its own and a fix-up record that says what it stands for, or -1 when fix-up is off. |
| `ExportBundles.ZenPackageBuilder.BuildArcs` | src/zen_asset_conversion.rs:1601-1773 | The arcs are exactly those of the dependencies of all commands: none missing, none invented, none twice. |
| `ExportBundles.WithEntryKeepsCut` | src/zen_asset_conversion.rs:1530-1598 | Adding the next command keeps the bundles a tiling whose cuts are at the public exports. |
| `ArcDependencies.AddDependency` | src/asset_conversion.rs:1287-1328 | Fails exactly on an export waiting for itself other than Serialize for Create; that one is left implied; any other is appended to the one list its two commands decide, and nothing else changes. |
| `ArcDependencies.LinkPackage` | src/asset_conversion.rs:1441-1524 | The legacy arcs of one imported package add exactly the links from last entries of its bundles (-1 meaning the last bundle) that map to an import. |
| `ArcDependencies.ResolveArcs` | src/asset_conversion.rs:1283-1526 | Fails exactly when some link would make an export wait for itself, and otherwise the rebuilt lists are exactly the links between different objects. |
| `ArcMeaning.LinksGoForward` | src/asset_conversion.rs:1330-1402 | Every rebuilt link between exports leads from an earlier entry to a later one. |
| `ArcMeaning.NoBadSelfLink` | src/asset_conversion.rs:1293-1300 | Bundles and arcs of the builder never trigger the self-dependency error. |
| `ArcMeaning.ChainAcrossLegacy` | src/asset_conversion.rs:1362-1402 | In a legacy container the implied arcs order every entry of a bundle before every entry of a later bundle. |
| `ArcMeaning.ExportDependencyForced` | src/zen_asset_conversion.rs:1509-1773 | Every original dependency between exports is in the transitive closure of the rebuilt ones. |
| `ArcMeaning.ImportDependencyForced` | src/asset_conversion.rs:1404-1439 | Every dependency on an export of another package is in that closure, from the position the import ends up in. |
| `ArcMeaning.RebuiltIsAcyclic` | src/asset_conversion.rs:1283-1402 | Every dependency between exports in the rebuilt lists leads forward in the load order, so they contain no cycle. |
| `ArcMeaning.LegacyListsNeighbours` | src/asset_conversion.rs:1330-1402 | For a legacy container the rebuilt lists name exactly the neighbours in the load order. |
| `ArcRoundTrip.ConvertAndRebuild` | src/zen_asset_conversion.rs:1509-2127 | A legacy package taken to bundles and arcs and back: fails exactly on circular dependencies; otherwise the rebuilt lists, before outer, super, class and template are added, enforce every dependency and have no cycle. |
| `LegacyArcs.WriteLegacyGraph` | src/zen.rs:1314-1341 | The graph data is written record by record for the packages that have arcs, and the recorded offsets are exactly the places of the source words. |
| `LegacyArcs.ReadLegacyGraph` | src/zen.rs:1059-1073 | Reading written graph data gives back the same packages and arcs. |
| `LegacyArcs.ConvertedPackage.FixArc` | src/zen_asset_conversion.rs:2288-2348 | One fix-up replaces one source word by its target, or fails exactly when there is none; every other byte stays. |
| `LegacyArcs.ConvertedPackage.FixupLegacyExternalArcs` | src/zen_asset_conversion.rs:2288-2348 | Succeeds exactly when every placeholder has a target, puts the targets in, and touches no byte outside the source words. |
| `LegacyArcs.FixupReplacesPlaceholders` | src/zen_asset_conversion.rs:2288-2348 | The fixed-up buffer holds the same graph data with every placeholder replaced by its target. |
| `LegacyArcMeaning.PublicClosesBundle` | src/zen_asset_conversion.rs:1595-1598 | A command of a public export is the last entry of its bundle. |
| `LegacyArcMeaning.FindsOwnBundle` | src/zen_asset_conversion.rs:1573-1593 | Looking a public command up in the published records finds the bundle that it closes. |
| `LegacyArcMeaning.FixupIsExact` | src/zen_asset_conversion.rs:2310-2340 | The placeholder of a dependency on a public command becomes the number of the bundle whose last entry is that command. |
| `LegacyArcMeaning.UnconvertedMeansLast` | src/zen_asset_conversion.rs:2336-2340 | A dependency on a package that is not converted becomes -1. |
| `LegacyArcMeaning.LegacyDependencyForced` | src/asset_conversion.rs:1441-1524 | A fixed-up arc makes the import of the very export depended on precede the dependent command. |
| `LegacyArcMeaning.LastEntryForced` | src/asset_conversion.rs:1466-1470 | An arc from bundle -1 makes the import of the very last entry of the imported package, under that entry's command, precede every entry of the bundle it leads to. |
| `LegacyRoundTrip.WriteFixRead` | src/zen_asset_conversion.rs:2288-2348 | Graph data written, fixed up and read again: succeeds exactly when every placeholder has a target, and the arcs read are those written with the targets filled in. |
| `LegacyRoundTrip.AllFoundIffFindable` | src/zen_asset_conversion.rs:1678-1715 | Every placeholder has a target exactly when every dependency on a converted package is on a command it publishes. |
| `LegacyRoundTrip.BuildLegacy` | src/zen_asset_conversion.rs:1509-2127 | Bundles and arcs of a package for a legacy container exist exactly when its dependencies are not circular, and match them. |
| `LegacyRoundTrip.CarryThroughContainer` | src/zen_asset_conversion.rs:2288-2348 | A builder whose bundles and arcs are built, written, fixed up, read back and rebuilt: succeeds exactly when each dependency on a converted package is on a command it publishes; then the rebuilt lists enforce every dependency between exports and on exports of converted packages, without cycles; a dependency on a package that is not converted makes the import of that package's last entry precede the dependent command. |
| `LegacyRoundTrip.ConvertThroughContainer` | src/zen_asset_conversion.rs:1509-2127 | From exports and the flat table through a legacy container and back: succeeds exactly when the dependencies are not circular and all on converted packages are published; then the rebuilt lists enforce every one of them, without cycles, and dependencies on packages that are not converted are met by the imports of their last entries. |
| `FinishedPackages.NamedNeedsLoad` | src/asset_conversion.rs:1528-1572 | If the original lists name outer, super, class and template, adding them to the rebuilt lists makes no cycle. |
| `FinishedPackages.LoadableIffAhead` | src/asset_conversion.rs:1528-1572 | Out of a legacy container adding them makes no cycle exactly when each is ahead of its command in the load order. |
| `FinishedPackages.FinishAndSort` | src/asset_conversion.rs:1615-1635 | Rebuilt lists completed and put into a new package can be sorted again exactly when the completed lists have no cycle. |
| `FinishedPackages.ConvertAgain` | src/asset_conversion.rs:1615-1635 | A package converted to arcs and back converts a second time whenever its original lists name what its exports always need, and out of a legacy container exactly when that is ahead in the load order. |
| `FinishedPackages.ConvertThroughContainerAgain` | src/asset_conversion.rs:1615-1635 | The same for the whole way through a legacy container with its placeholders and fix-up. |
| `FinishedPackages.ClassBehindIsNotAhead` | src/zen_asset_conversion.rs:1910-1928 | Two private exports, the first with the second as its class and no lists, do not convert a second time. |
| `ImportRebuild.RemainingImports` | src/asset_conversion.rs:1778-1808 | The unplaced imports are those without an original position, in ascending order. |
| `ImportRebuild.FillZenRegion` | src/asset_conversion.rs:1810-1822 | Predefined slots keep their imports, the other slots of the zen region take unplaced imports in order, then holes. |
| `ImportRebuild.AppendRemaining` | src/asset_conversion.rs:1824-1830 | What found no slot is appended, and the remap follows. |
| `ImportRebuild.BuildImportReorderPlan` | src/asset_conversion.rs:1773-1844 | Succeeds exactly on valid positions whose total fits a machine word; the plan has the required length, keeps predefined slots, places every import, leaves holes only if nothing was appended, and the final check never fails. |
| `ImportTrees.ImportMapBuilder.FindOrAdd` | src/asset_conversion.rs:986-1021 | Returns the entry of a resolved import, adding it and what it lies in only where missing; existing entries stay; fails exactly when a name cannot be stored. |
| `ImportTrees.EnterImports` | src/asset_conversion.rs:1024-1080 | Imports entered one after the other get the entry of their own tree, and no tree is entered twice. |
| `ImportTrees.PathIsTreePath` | src/asset_conversion.rs:986-1021 | Following outer indices from an entry spells the path of the resolved import. |
| `LegacyPackages.LegacyPackage.RemapPackageIndex` | src/asset_conversion.rs:1846-1864 | Imports follow the remap, other references stay; the unknown import is an error. |
| `LegacyPackages.LegacyPackage.RemapReferences` | src/asset_conversion.rs:1866-1890 | Succeeds exactly when every reference is known to the remap, and then every table is its old self with each reference remapped: class, super, template and outer of exports, outers of imports, data resources and dependencies. |
| `LegacyPackages.LegacyPackage.FinalizeAsset` | src/asset_conversion.rs:1892-1912 | Succeeds exactly on valid positions and references that exist, and leaves the imports in plan order with all references following them. |
| `LegacyPackages.LegacyPackage.ApplyDependencies` | src/asset_conversion.rs:1528-1613 | Each export reads back its completed lists from the flat table, and nothing else is added to it. |
| `LegacyPackages.FlattenedLists` | src/asset_conversion.rs:1583-1612 | Lists written to the end of the table are read back by the indices written with them. |
| `LegacyPackages.LegacyPackage.GetFullName` | src/legacy_asset.rs:1261-1338 | The walk over outers ends and gives the package name and the full name: an import without outer has its own name, an export without outer its own name behind the package name, any other object its own name behind the full name of its outer; lower case on demand changes no character but A to Z. |
| `LegacyPackages.FullNameOfOuter` | src/legacy_asset.rs:1297-1333 | Full names from the outside in: the own name of an import without outer, the package name and own name of an export without outer, else the outer's full name, the separator and the own name, in the package of the outer. |
| `LegacyPackages.FullNamePreserved` | src/asset_conversion.rs:1866-1912 | After the rebuild every reference leads, in as many steps, to the same full name. |
| `PackageNames.BreakDownInverse` | src/lib.rs:2208-2225 | A name taken apart and put together is the same name. |
| `PackageNames.NumberIsTaken` | src/lib.rs:2208-2225 | A canonical number behind the last underscore is always taken off. |
| `PackageNames.NumberlessNames` | src/lib.rs:2208-2225 | A name has no number exactly when it does not end in an underscore and a canonical number. |
| `PackageNames.NumberFits` | src/lib.rs:2216-2221 | The stored number fits 32 bits exactly when the name does not end with the largest 32-bit number; for that one the addition overflows. |
| `PackageNames.NameMap.Store` | src/legacy_asset.rs:685-705 | A stored name is got back, earlier names stay, and a base is added only if it is new. |
| `DependencyBundles.ResolveBundles` | src/asset_conversion.rs:1197-1268 | The four lists of each export, read by running offsets, come out under temporary import indices. |
| `DependencyBundles.CollectExportDependencies` | src/zen_asset_conversion.rs:1802-1836 | Selects the objects depended on with one kind of command; an object is among them exactly when it is an export other than this one or an import of another package's export. |
| `DependencyBundles.BuildDependencyBundles` | src/zen_asset_conversion.rs:1838-1902 | The lists of all exports are packed one behind the other, and each header finds its own. |
| `DependencyBundles.CompletedNamesNeeds` | src/asset_conversion.rs:1535-1572 | Outer is in create-before-create, class and template in serialize-before-create, super in create-before-create or serialize-before-serialize; nothing else is added, and nothing a second time. |
| `DependencyBundles.CompletedExtends` | src/asset_conversion.rs:1535-1572 | Completing the lists only appends to them. |
| `DependencyBundles.ListSurvives` | src/zen_asset_conversion.rs:1802-1902 | A list repositioned, completed, remapped and filtered still opens with its original entries. |
| `DependencyBundles.BundlesSurvive` | src/zen_asset_conversion.rs:1802-1902 | Each regenerated list opens with the original list of the same export and commands. |
| `DependencyBundles.FinalSlotHoldsSameImport` | src/asset_conversion.rs:1810-1830 | The slot an entry ends up with holds the import it had. |
| `BundleRoundTrip.LegacyToZen` | src/zen_asset_conversion.rs:1981-2127 | The conversion to dependency bundles sorts first, so it fails exactly on circular dependencies; then each export finds its lists, which hold exactly the other exports and the imports of other packages' exports that its legacy lists name. |
| `BundleRoundTrip.CircularAlike` | src/zen_asset_conversion.rs:2088-2118 | The legacy dependencies of a package that came from zen are circular exactly when its zen lists, completed with outer, super, class and template, are. |
| `BundleRoundTrip.MutualListsAreCircular` | src/zen_asset_conversion.rs:2117-2118 | Two exports that have to be created before each other are such a case. |
| `BundleRoundTrip.ZenToLegacyToZen` | src/asset_conversion.rs:1914-1928 | Zen to legacy to zen succeeds exactly on valid import positions whose total fits and completed lists that are not circular; then the commands are in an order that respects the completed lists, and every original list opens the regenerated one up to slots that hold the same import; the regenerated lists name only other exports of the package and exports of other packages. |
| `ExportData.WriteExportsInBundleOrder` | src/zen_asset_conversion.rs:2129-2196 | Fails exactly when a header offset is not where its data is; writes the blobs in load order, then what follows them except the tag. |
| `ExportData.AssignSerialOffsets` | src/asset_conversion.rs:1173-1185 | Serial offsets are the prefix sums of the sizes. |
| `ExportData.RebuildExportsData` | src/asset_conversion.rs:1930-2001 | For packages with bundles every blob lands at its prefix-sum offset, followed by the extra data and the tag. |
| `ExportData.ExtraDataSplits` | src/zen_asset_conversion.rs:2177-2194 | Extra data and tag make up what followed the blobs exactly when it ended with the tag. |
| `ExportData.ExportsToZen` | src/zen_asset_conversion.rs:2214-2226 | The exports file goes into the zen package as it is from container version NoExportInfo on, before that as blobs in load order and the extra data; bundles cut from a load order never make it fail. |
| `ExportData.ExportsToLegacy` | src/asset_conversion.rs:2015-2023 | Export data is rebuilt exactly when there are bundles; otherwise it is what follows the zen header. |
| `ExportData.ConvertExportsAndBack` | src/asset_conversion.rs:2015-2023 | An exports file goes to zen and back byte for byte under cooked offsets; before them exactly when it ends with the tag and there is a bundle, or neither. |
| `PackedFields.OffsetAndLengthHolds` | src/lib.rs:2645-2669 | Both 40-bit fields read back modulo 2^40. |
| `PackedFields.OffsetAndLength.SetOffset` | src/lib.rs:2656-2659 | Setting the offset keeps the length. |
| `PackedFields.OffsetAndLength.SetLength` | src/lib.rs:2664-2669 | Setting the length keeps the offset. |
| `PackedFields.BlockEntryHolds` | src/lib.rs:2697-2737 | The four packed fields of a block entry read back modulo their widths. |
| `PackedFields.BlockEntry.SetField` | src/lib.rs:2715-2737 | Setting one packed field leaves every disjoint one alone. |
| `Codecs.AlignIsLeast` | src/lib.rs:2201-2206 | Alignment gives the least multiple that is not smaller. |
| `Codecs.CryptInPlace` | src/lib.rs:2353-2367 | In-place encryption or decryption changes exactly the given stretch, block by block. |
| `Codecs.DecryptInvertsEncrypt` | src/lib.rs:2353-2367 | Decrypting an encrypted sequence of whole blocks gives it back. |
| `Containers.RoundedReadsFit` | src/lib.rs:2330-2380 | Reads rounded up to 16 bytes never run past the output buffer. |
| `Containers.ReadStored` | src/lib.rs:2349-2374 | Succeeds exactly when the file reaches that far, yields the decrypted bytes, and leaves the buffer before them alone. |
| `Containers.ReadBlock` | src/lib.rs:2333-2377 | One block is decoded behind the cursor without touching what is before it; it fails within the buffer only when the block cannot be decoded. |
| `Containers.ReadChunk` | src/lib.rs:2298-2382 | A well-formed chunk reads as the plain bytes of its blocks exactly when the key is known and all decode; a chunk that begins and ends at offset zero fails. |
| `ContainerWriter.IoStoreWriter.WriteBlock` | src/iostore_writer.rs:139-194 | Appends one block that decodes to the given bytes, recorded as compressed exactly where that makes it smaller; fails exactly when the compressor does. |
| `ContainerWriter.IoStoreWriter.WriteChunk` | src/iostore_writer.rs:117-214 | The chunk joins the contents and every earlier chunk stays readable; each of its blocks is compressed exactly where that makes it smaller; fails exactly when a block cannot be compressed. |
| `ContainerWriter.IoStoreWriter.ContentsRead` | src/iostore_writer.rs:117-214 | Every written chunk is well formed and reads as written, unless it is empty and no data precedes it, under the key that was given or, without one, the default key. |
| `ContainerWriter.IoStoreWriter.ReadBack` | src/lib.rs:2298-2382 | Reading chunk i returns what was written exactly when some data is in it or before it. |
| `ContainerWriter.WriteThenRead` | src/iostore_writer.rs:99-214 | A run of writes succeeds exactly when every compressed block can be compressed, and then each chunk reads back unless no data precedes it, whatever the codec and key. |
| `ContainerWriter.EncodedDecodes` | src/iostore_writer.rs:142-191 | A block entry for encoded bytes decodes to the block. |
| `Repack.Reencode` | src/iostore_repack.rs:90-112 | A block is reused when its codec is wanted or raw blocks may stay; otherwise it is recoded; either way its meaning stays. Fails exactly when it cannot be decoded or compressed. |
| `Repack.RepackBlock` | src/iostore_repack.rs:68-126 | The output block decodes to what the source block decodes to; fails exactly on a block that fails the checks or cannot be recoded, or beyond 40-bit offsets. It stays encoded exactly when its codec is wanted, or when it is raw and no codec new to the container is wanted; otherwise it is compressed exactly where that makes it smaller. The size limit never applies. |
| `Repack.RepackBlocks` | src/iostore_repack.rs:68-134 | The table rewritten in place tiles the new file, every block keeps its meaning, the blocks that stay are those counted as reused; fails exactly on a block that cannot be rewritten or would start beyond 2^40. |
| `Repack.FewBlocksFit` | src/iostore_repack.rs:114-116 | With at most 65536 blocks no block starts beyond 2^40, whatever their sizes. |
| `Repack.ChunkReadsAlike` | src/lib.rs:2298-2382 | Blocks that decode alike make chunks that read alike. |
| `Repack.RepackIoStore` | src/iostore_repack.rs:31-134 | Succeeds exactly when the keys are there and every block can be rewritten within reach; then every well-formed chunk reads as before for every codec and key, each block stays encoded or is compressed as its codec and the wanted one decide, and the statistics count them. |
| `Repack.RepackContainer` | src/iostore_repack.rs:45-52 | With keys looked up by guid, then under guid zero, and a write key and guid of the configuration: whoever finds the written key under the written guid reads every chunk as before. |
| `Repack.SameConfigFindsKey` | src/iostore_repack.rs:49-52 | The configuration that repacked finds its key again exactly when its write key and write guid agree with its key table. |
| `Repack.WrittenKeyIsLost` | src/iostore_repack.rs:49-52 | A write key beside a default key is such a configuration: written with the one, read with the other. |
| `Repack.RepackWritten` | src/iostore_repack.rs:31-134 | A container written chunk by chunk still reads as those chunks after a repack. |
| `Publish.PublishOne` | src/iostore_repack.rs:153-163 | After each step the journal says where every original is, also when a rename fails; the step succeeds exactly when no operation is refused, the staged file exists and the target is no directory. |
| `Publish.RemovePublished` | src/iostore_repack.rs:166-170 | Undoing removes only what was published. |
| `Publish.RestoreBackups` | src/iostore_repack.rs:171-173 | Restoring moves backups back; without errors the targets are as before. |
| `Publish.PublishAll` | src/iostore_repack.rs:149-181 | Whatever renames and removals fail: it succeeds exactly when none does, every staged file exists and no target is a directory; success puts every staged file in place, restored originals mean unchanged targets, and a failed rollback loses no original. |
| `DirectoryTree.Tree.VisitSeesAllOnce` | src/lib.rs:3144-3184 | A traversal from the root sees every file exactly once. |
| `DirectoryTree.WithDirValid` | src/lib.rs:3199-3225 | A new directory keeps the tree a tree with distinct sibling names and links to higher indices. |
| `DirectoryTree.WithFileValid` | src/lib.rs:3226-3250 | A new file does as well. |
| `DirectoryIndex.DirectoryIndexResource.GetOrCreateDir` | src/lib.rs:3199-3225 | Returns the directory with that path, created if missing, without changing what is stored. |
| `DirectoryIndex.DirectoryIndexResource.GetOrCreateFile` | src/lib.rs:3226-3250 | Returns the file with that path; a new one is stored with user data 0. |
| `DirectoryIndex.DirectoryIndexResource.GetOrCreateName` | src/lib.rs:3251-3261 | Returns the index of the name; names stored earlier keep theirs. |
| `DirectoryIndex.DirectoryIndexResource.AddFile` | src/lib.rs:3262-3272 | The path map gains or replaces exactly this entry. |
| `DirectoryIndex.DirectoryIndexResource.Iter` | src/lib.rs:3152-3184 | Visits exactly the files below a directory, restores the stack, and ends. |
| `DirectoryIndex.DirectoryIndexResource.IterRoot` | src/lib.rs:3144-3151 | Visits each stored path exactly once with its latest data. |
| `DirectoryIndex.IndexAndVisit` | src/lib.rs:3144-3272 | After any run of additions a visit sees the last-write-wins map. |
| `FilePool.FilePoolInner.Acquire` | src/file_pool.rs:61-86 | One pass under the lock is one step of the protocol: the first idle file is handed out if there is one; else one is opened if there is room, unless opening fails; else the call waits. |
| `FilePool.FilePoolInner.Drop` | src/file_pool.rs:11-18 | Dropping a handle is the return step: the file goes behind the idle ones and a sleeper is woken if there is one. |
| `FilePool.StepKeeps` | src/file_pool.rs:11-86 | Every step of any thread keeps the invariant. |
| `FilePool.ReachableIsSafe` | src/file_pool.rs:11-86 | In every interleaving idle plus held handles equal the active count, which stays within the limit; no file has two owners; no wake-up is lost. |
| `FilePool.StuckIffNoHandles` | src/file_pool.rs:61-86 | A state in which nobody can go on is reachable exactly when the limit is zero. |
| `ShaderGroups.MapsOfAscend` | src/shader_library.rs:1031-1051 | The lists of referencing maps come out ascending, so sorting them changes nothing. |
| `ShaderGroups.ReferencingMaps` | src/shader_library.rs:1031-1043 | Each shader gets exactly the maps that name it. |
| `ShaderGroups.CutStreaks` | src/shader_library.rs:1068-1094 | Cutting the sorted list at changes gives uniform groups with strictly ascending lists, without loss. |
| `ShaderGroups.GroupByMaps` | src/shader_library.rs:1031-1094 | Every shader is in one group, and two share a group exactly when the same maps reference them; groups come by number of maps, then by the maps, and shaders of a group by index. |
| `ShaderSplit.SeparateOne` | src/shader_library.rs:1096-1123 | A mixed group becomes its two kinds; a group of one kind stays as it is. |
| `ShaderSplit.SeparateRaytracing` | src/shader_library.rs:1096-1123 | All groups are of one kind, and shaders of one kind that shared a group still do. |
| `ShaderSplit.SeparatedClasses` | src/shader_library.rs:1031-1123 | After the separation two shaders share a group exactly when they agree in maps and in whether their frequency is one of the four raytracing ones. |
| `ShaderPacking.PackGreedily` | src/shader_library.rs:1164-1187 | The loop puts each shader into the first least loaded group. |
| `ShaderPacking.PackFair` | src/shader_library.rs:1164-1187 | A group without its last and smallest shader is at most as large as its fair share. |
| `ShaderPacking.PackSpreads` | src/shader_library.rs:1164-1187 | As long as all shaders but the last one placed have code no group stays empty while others have two. |
| `ShaderPacking.FilledIffPositives` | src/shader_library.rs:1162-1187 | Packed largest first into no more groups than shaders, no group stays empty exactly when there are at most one more groups than shaders with code. |
| `ShaderPacking.PackingBounded` | src/shader_library.rs:1162-1187 | Packed into as many groups as the source asks for, each group is within the limit or below it without its smallest shader, whatever the sizes. |
| `ShaderPacking.BelowTwice` | src/shader_library.rs:1146-1189 | So a group with several shaders is smaller than twice the limit. |
| `ShaderPacking.SplitWithinLimit` | src/shader_library.rs:1146-1187 | The parts of a split are within the limit only if every size is and the first two shaders that must share fit; they are if every size is and the first that must share fits beside the average; with at most one shader more than parts the first condition is exact. |
| `ShaderPacking.SplitOne` | src/shader_library.rs:1146-1189 | A small group is left alone; another is the greedy packing of its shaders, largest first by uncompressed size, size, frequency and offset, into one part more than the limit goes into its size but no more than it has shaders; none is empty exactly when it has enough shaders with code. |
| `ShaderPacking.LimitCanBeExceeded` | src/shader_library.rs:1146-1189 | The claim of the comment fails where a pair does not fit: sizes 6, 6, 6 under a limit of 10 give a group of 12. |
| `ShaderPacking.EmptyCodeLeavesEmptyGroup` | src/shader_library.rs:1162-1187 | With one shader that has code three groups cannot all be filled. |
| `ShaderPacking.BuildGroups` | src/shader_library.rs:1022-1194 | Every shader has one place; groups are bounded, uniform in their maps and, when asked for, in having frequencies 6 to 9 or not, and sorted by uncompressed size, size, frequency and offset; they come from the exact classes, small ones unsplit, the others in the number of parts asked for; none is empty exactly when every class that is split has enough shaders with code. |
| `ShaderLayout.PackedEntryHolds` | src/shader_library.rs:55-92 | The three packed fields read back modulo their widths, and the word has 64 bits. |
| `ShaderLayout.FindOrAdd` | src/shader_library.rs:1222-1259 | Finds the first slice equal to the group, or appends the group exactly when there is none. |
| `ShaderLayout.BuildHeader` | src/shader_library.rs:1206-1310 | The original indices stay a prefix, each group finds its slice, and offsets are prefix sums; fails exactly on an empty group or one longer than the indices left by the groups before it. |
| `ShaderLayout.FewUnnamedFits` | src/shader_library.rs:1222-1259 | If every shader is in the indices, or those that no map names are no more than the indices, only an empty group makes the layout fail. |
| `ShaderLayout.NoIndicesNeverFits` | src/shader_library.rs:1226-1227 | With shaders and no indices it always fails. |
| `ShaderArchive.CodeInGroup` | src/shader_library.rs:1417-1427 | A shader's code is between its prefix sum and the next. |
| `ShaderArchive.CompressGroup` | src/shader_library.rs:1436-1450 | A group is stored compressed exactly when a method is known and that makes it smaller, and decompresses to the group; fails exactly when compression does. |
| `ShaderArchive.WriteArchive` | src/shader_library.rs:1389-1457 | Succeeds exactly when each group can be written, and then stores every group under the header's layout, compressed where that is smaller once a compressed shader was seen; the offset check never fails. |
| `ShaderArchive.ReadGroup` | src/shader_library.rs:329-404 | Slicing a group at its sorted offsets gives each member its code and touches no other shader; reading fails on a group without shaders and on one that names a shader of another group or none. |
| `ShaderRoundTrip.ReadArchive` | src/shader_library.rs:299-404 | A readable archive gives the code of every shader, and fails exactly when some shader has size zero. |
| `ShaderRoundTrip.WriteLibrary` | src/shader_library.rs:1331-1457 | A library can be written exactly when its groups can be laid out and written; where unnamed shaders are few they can be laid out exactly when every split class has enough shaders with code. |
| `ShaderRoundTrip.WriteThenRead` | src/shader_library.rs:1331-1457 | A library written and read back comes out with the code of every shader exactly when its groups can be laid out and written and no shader has size zero. |
| `ShaderRoundTrip.ZeroSizeIsNotRead` | src/shader_library.rs:396-404 | A library with one shader of size zero is written and then cannot be read, whatever the codec. |
| `ShaderCodeLayout.FileOrderHoldsAll` | src/shader_library.rs:595-643 | Shared, unique and detached shaders together are all shaders, each once. |
| `ShaderCodeLayout.ShaderCodeWriter.Write` | src/shader_library.rs:657-714 | Appends one shader, compressed where that is smaller, and records its region; fails exactly when it cannot be compressed. |
| `ShaderPreloads.CountsAddUp` | src/shader_library.rs:571-643 | Shared, unique and detached add up to the total. |
| `ShaderPreloads.CheckWritten` | src/shader_library.rs:724-730 | The check for shaders that were not written never fails. |
| `ShaderPreloads.LayOutShaderCode` | src/shader_library.rs:546-739 | Succeeds exactly when every shader can be stored, and lays the file out as the regions say. |
| `ShaderPreloads.RegionHoldsData` | src/shader_library.rs:706-714 | Each shader's region holds its bytes. |
| `ShaderPreloads.RegionsDisjoint` | src/shader_library.rs:593-718 | Regions of different shaders do not overlap. |
| `ShaderPreloads.RegionsCover` | src/shader_library.rs:593-718 | Every byte of the file belongs to some shader. |
| `ShaderPreloads.MapRegionIsExact` | src/shader_library.rs:606-631 | A map's region contains the shaders that only it names and no byte of another. |
| `ShaderPreloads.PreloadsOf` | src/shader_library.rs:930-972 | The preload entries of a map cover all its shaders, are its own region and its shared shaders' regions, and are as many as those. |
| `StoreEntries.WriteArray` | src/container_header.rs:544-555 | An array lands where its view points, and the subtraction for the relative offset does not underflow. |
| `StoreEntries.WriteEntries` | src/container_header.rs:506-567 | Every entry is at its fixed place and its arrays are behind all entries, undisturbed by later writes. |
| `StoreEntries.PartsApart` | src/container_header.rs:506-567 | Entries and arrays never overlap. |
| `StoreEntries.ViewsLandOnArrays` | src/container_header.rs:436-505 | Relative offsets land on the right arrays. |
| `StoreEntries.ReadFileEntry` | src/container_header.rs:607-629 | A fixed-size entry reads back up to the fields its version stores. |
| `StoreEntries.ReadEntries` | src/container_header.rs:436-505 | A written table reads back, for each of the six versions, up to the fields that version stores. |
| `StoreEntries.WriteThenRead` | src/container_header.rs:436-567 | Writing then reading a table gives back the imported packages in every version, hashes from LocalizedPackages on, counts until NoExportInfo, and sizes and load order with Initial. |
| `ZenLayout.WriteBulkMap` | src/zen.rs:1193-1212 | The size patched in afterwards is the size of the map. |
| `ZenLayout.SerializeHeader` | src/zen.rs:1129-1359 | The bytes are the summary with all offsets patched in, then the sections; before NoExportInfo the store entry gets the numbers of exports and bundles, from it on its counts stay, and its size and load order always do. |
| `ZenReader.CheckedBulkDataCount` | src/zen.rs:323-345 | Accepts exactly non-negative sizes within the section that are whole numbers of entries. |
| `ZenReader.ReadBulkCount` | src/zen.rs:323-345 | The stored size gives a count exactly when it is no negative i64, a whole number of records and ends within the section. |
| `ZenReader.DecideVersion` | src/zen.rs:860-887 | Uses the stored version, else the hint, else the bulk-data heuristic and the version derived from it. |
| `ZenReader.ReadBetween` | src/zen.rs:933-1000 | The number of records is recovered from the difference of two offsets. |
| `ZenRoundTrip.HeuristicIsRight` | src/version_heuristics.rs:15-33 | On written headers the heuristic tells whether there is a bulk data map; for 5.1 and 5.2 it is always right. |
| `ZenRoundTrip.UnversionedLayout` | src/version_heuristics.rs:15-103 | For every modern version, an unversioned package is read under its own layout exactly when its file version is on the same side of both layout changes as the hint or, without one, as the guess from the container. |
| `ZenRoundTrip.DeserializeHeader` | src/zen.rs:832-1126 | A written header is read back exactly when its counts agree, under any version with the same layout. |
| `ZenRoundTrip.FilledCountIsWritten` | src/zen.rs:1256-1296 | The offsets of a written header leave room for exactly as many export records as the store entry counts. |
| `ZenRoundTrip.WriteThenRead` | src/zen.rs:832-1359 | Writing then reading, with the store entry that writing filled in, gives the same header. |
| `ZenRoundTrip.ListedAlready` | src/zen.rs:1304-1313 | External dependencies listed once per imported package come back as they were. |
| `ShaderPartition.PartitionDisjoint` | src/shader_library.rs:1146-1194 | Groups that hold every shader once give every shader one place. |

## Left out

- ShaderPacking.SplitWithinLimit: between its necessary and its sufficient condition, and with at least two shaders more than parts, the outcome depends on every size and only the packing itself tells it.
- LegacyRoundTrip.ConvertThroughContainer: numbers of packages, references, bundles and placeholders are taken to fit 31 bits and package ids 64, as the casts of the source assume.
- BundleRoundTrip.ZenToLegacyToZen: starts from resolved imports; resolving imports across packages and script objects depends on the contents of a store.
- ZenRoundTrip.WriteThenRead: nothing is said about a reader that goes by a wrong layout, which may fail or still get the same header; only header versions after Initial, from the start of a stream; name maps, versioning info and imported package names are self-delimiting codecs of which only the law is used, and map entries are records of fixed width.
- Repack.RepackIoStore: containers of several partitions, signed ones and ones with memory-mapped chunks, which the source turns away first, are not modelled; a decompressor is taken to fill the output it is given exactly; partial output of a codec is not modelled.
- Command line, logging, progress, file system access other than the renames of a publish, pak files.
- Compression, AES, hash and chunk id computation.
- Widths of counters and offsets where no packed or 32-bit field is involved: they are unbounded here.
- The seek that repack skips when the source is already at the right position.
- Removal of the staging directory when a publish ends.
- Duplicate suppression by hash set is modelled as list membership.
- The parallel compression of shaders, which keeps the order of its messages, is sequential here.
- Guessing the compression method of shader code: the method is given.
- The shader library header as bytes, shader asset metadata, and hashes of groups.
- Container headers around the store entries: localized packages, redirects, soft references.
- Material tags, the compact binary reader, version tables, the legacy summary codec, metadata caches.
