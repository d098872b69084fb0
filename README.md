# mcvolume in Dafny

A model of the core of **mcvolume**, a Kotlin library that stores Minecraft builds as sparse voxel volumes, with proofs about it.

An `McVolume` cuts space into cubic chunks of 2^b blocks a side, with b from 1 to 8. The chunks sit on a chunk grid and are ordered Y, then Z, then X. A chunk is allocated only once something other than the default block, or some tile data, is written into it. Each block is a 16-bit palette id. The palette interns block states such as `minecraft:lever[face=floor,powered=true]` and stamps each entry with the owning volume's identity. The volume can grow or shrink its loaded area and keeps its chunks in place while doing so. It computes tight bounds around what was built, and copies whole blocks of ids in and out as flat Y-Z-X grids.

Beside the store, the model covers:

- the helpers and codecs the I/O layer relies on:
  - long bit-packing, low-first and high-first;
  - unsigned 32-bit varints (LEB128);
  - the job split for worker threads;
  - the growable byte buffer;
- the `.mcv` format, with its chunk id remapping, length-prefixed fields and chunk table;
- the Sponge schematic block-data stream and palettes;
- the Anvil region export: region, column and section binning, the section palette, the location table and sector padding;
- the greedy quad mesher;
- the legacy volume, whose palette is a plain list inside the volume.

One module per source file:

| module | file |
|---|---|
| `Wrappers`, `Vec` | Option/Result, and `IVec3` as an integer triple |
| `Bounds` | `IntBoundary.kt` |
| `Chunks`, `ChunkGrid` | `Chunk.kt` and the chunk addressing of `McVolume.kt` |
| `Strs`, `BlockStates`, `MutBlockStates`, `VolBlocks` | the `block` package |
| `HashedPalettes`, `ListPalettes` | the `blockpalette` package |
| `Packing`, `Varints`, `Bytes`, `ByteBufs`, `McvUtils` | `McvUtils.kt` |
| `VolumeSlots`, `BuildBounds`, `BlockGrids`, `Volumes` | `McVolume.kt` |
| `McvCodec`, `McvRemap`, `McvFile`, `McvRoundTrip` | `io/Mcv.kt` |
| `Schems`, `Worlds`, `Quads` | `io/Schem.kt`, `io/World.kt`, `io/Quads.kt` |
| `LegacyVolumes` | `me/sloimay/mcvolume/mcvolume.kt` |

The classes the source mutates stay classes: `McVolume`, `Chunk`, the palettes, `MutBlockState`, `GrowableByteBuf`, the schematic stream cursor, the World `Section` and the mesher's `SerialChunk`. Their loops are methods with invariants. A ghost sequence of chunk values mirrors each volume's chunk array. Each method states its new state as a pure function of the old one, and the read-after-write facts are lemmas about those functions. Pure code stays pure: block-state parsing and printing, the codecs, and the arithmetic of bounds and regions.

## Model

| member | source | states |
|---|---|---|
| Vec.IndexOfMax | src/main/kotlin/mcvolume/McVolume.kt:419 | the axis returned holds the largest component, and every earlier axis holds a strictly smaller one (first index on ties) |
| Vec.Pow2Add | src/main/kotlin/mcvolume/McVolume.kt:626-636 | 2^(m+n) = 2^m * 2^n, the law that lets chunk and local shifts compose |
| Vec.Pow2Monotone | src/main/kotlin/mcvolume/McVolume.kt:626-636 | a wider shift never gives a smaller chunk side |
| Vec.ShrAndMaskSplit | src/main/kotlin/mcvolume/McVolume.kt:626-636 | every position is its chunk position shifted back up plus its local coordinates, and the local coordinates lie in [0, 2^b) on every axis |
| Vec.ShrOfSplit | src/main/kotlin/mcvolume/McVolume.kt:626-636 | conversely a chunk position and an in-range local offset recombine into a position whose chunk position and local coordinates are exactly those two |
| Bounds.New | src/main/kotlin/mcvolume/IntBoundary.kt:24-28 | the box built from any two corners is normal: low corner below high corner, and the cached dimensions equal their difference |
| Bounds.NewProperties | src/main/kotlin/mcvolume/IntBoundary.kt:24-45 | the corner order does not matter, a point is inside exactly when it lies between the smaller and the larger corner (high corner excluded), and the dimensions are non-negative |
| Bounds.NewOfNormal | src/main/kotlin/mcvolume/IntBoundary.kt:24-28 | normalising an already normal box leaves it unchanged |
| Bounds.IntersectsIffCommonPoint | src/main/kotlin/mcvolume/IntBoundary.kt:30-51 | `intersects` is symmetric and, for non-empty boxes, holds exactly when the two boxes share a point |
| Bounds.ClampedIsIntersection | src/main/kotlin/mcvolume/IntBoundary.kt:74-79 | the clamped box contains exactly the points common to the box and its container, so it lies inside the container |
| Bounds.ClampPointInside | src/main/kotlin/mcvolume/IntBoundary.kt:81-83 | clamping a point into a non-empty box lands inside it, and a point already inside is left alone |
| Bounds.WithMidpointProperties | src/main/kotlin/mcvolume/IntBoundary.kt:85-91 | the re-centred box keeps the dimensions and, when not empty, contains the given midpoint |
| Bounds.FullyInsideContains | src/main/kotlin/mcvolume/IntBoundary.kt:41-45 | a box fully inside another has every one of its points inside the other |
| Bounds.MoveAndExpand | src/main/kotlin/mcvolume/IntBoundary.kt:93-95 | `move` translates membership exactly, and `expand` by a non-negative margin keeps every point that was inside |
| Bounds.BorderMeaning | src/main/kotlin/mcvolume/IntBoundary.kt:53-63 | an inside point off the border has all six neighbours inside; a point on the min (max) border has its lower (upper) neighbour outside on that axis |
| Bounds.YzxIdxHorner | src/main/kotlin/mcvolume/IntBoundary.kt:65-72 | the Y-Z-X index is the Horner form x + dx*(z + dz*y) of the local coordinates |
| Bounds.YzxIdxInRange | src/main/kotlin/mcvolume/IntBoundary.kt:65-72 | the index of an inside point lies in [0, dx*dy*dz) |
| Bounds.PointAtYzxIdx | src/main/kotlin/mcvolume/IntBoundary.kt:65-72 | decoding the index of an inside point gives the point back |
| Bounds.YzxIdxPointAt | src/main/kotlin/mcvolume/IntBoundary.kt:65-72 | every index in [0, volume) decodes to an inside point whose index is that index: the layout is a bijection |
| Bounds.YzxIdxInjective | src/main/kotlin/mcvolume/IntBoundary.kt:65-72 | two inside points with the same index are the same point |
| Bounds.YzxIdxRow | src/main/kotlin/mcvolume/IntBoundary.kt:65-72 | one step along X inside the box moves the index by exactly one, so rows are contiguous |
| Bounds.StepPointAt | src/main/kotlin/mcvolume/IntBoundary.kt:117-131 | on a box with positive dimensions, one `next()` step takes the k-th Y-Z-X point to the (k+1)-th |
| Bounds.PointAtEnds | src/main/kotlin/mcvolume/IntBoundary.kt:105-133 | the iteration starts at the low corner, and the point after the last one is the first with y at the top face |
| Bounds.PointAtBelowTop | src/main/kotlin/mcvolume/IntBoundary.kt:113-115 | the points visited before the end are exactly those whose y is below the top face |
| Bounds.IterYzxYieldsOutsidePoint | src/main/kotlin/mcvolume/IntBoundary.kt:113-115 | as written, a box with no width along X but some height passes the `hasNext` test although it contains no point |
| Bounds.FirstYieldOfFlatBox | src/main/kotlin/mcvolume/IntBoundary.kt:105-134 | as written, on every normal box with height but no width along X or Z, the iterator's `hasNext` holds and `next` yields the lower corner, which the box does not contain; such a box has volume 0 |
| Bounds.YzxIter.constructor | src/main/kotlin/mcvolume/IntBoundary.kt:108-111 | the counters start at the low corner with nothing yielded |
| Bounds.YzxIter.Next | src/main/kotlin/mcvolume/IntBoundary.kt:117-131 | returns the current point and advances the counters one step; on a valid iterator the returned point is the one whose Y-Z-X index is the number yielded so far |
| Bounds.CollectYzx | src/main/kotlin/mcvolume/IntBoundary.kt:105-133 | running the iterator to the end on a box with positive dimensions yields dx*dy*dz points, the k-th having Y-Z-X index k |
| Bounds.CollectYzxInside | src/main/kotlin/mcvolume/IntBoundary.kt:105-133 | with the corrected guard, the iteration of any normal box yields exactly its points in Y-Z-X order, and none when a dimension is 0 |
| Strs.IndexOf | src/main/kotlin/mcvolume/block/BlockState.kt:57 | -1 exactly when the character is absent; otherwise the index of its first occurrence |
| Strs.IndexOfAfterPrefix | src/main/kotlin/mcvolume/block/BlockState.kt:57 | in a + [c] + b with c not in a, the first occurrence of c is at &#124;a&#124; |
| Strs.Split | src/main/kotlin/mcvolume/block/BlockState.kt:86 | a split yields at least one piece and no piece contains the separator |
| Strs.JoinSplit | src/main/kotlin/mcvolume/block/BlockState.kt:86 | joining the pieces of a split with the same separator gives the string back |
| Strs.SplitJoin | src/main/kotlin/mcvolume/block/BlockState.kt:133 | splitting a join of separator-free pieces gives the pieces back |
| Strs.TrimStart | src/main/kotlin/mcvolume/block/BlockState.kt:87 | the result is a suffix of the input that does not start with whitespace, and everything removed is whitespace |
| Strs.TrimEnd | src/main/kotlin/mcvolume/block/BlockState.kt:87 | the result is a prefix of the input that does not end with whitespace, and everything removed is whitespace |
| Strs.TrimProperties | src/main/kotlin/mcvolume/block/BlockState.kt:87-91 | `trim` leaves no whitespace at either end and does not change a string that is already trimmed |
| Strs.LexLeTotal | src/main/kotlin/mcvolume/block/BlockState.kt:43 | string order (the key of `sortedBy { it.name }`) is total |
| Strs.LexLeAntisymmetric | src/main/kotlin/mcvolume/block/BlockState.kt:43 | string order is antisymmetric |
| Strs.LexLeTransitive | src/main/kotlin/mcvolume/block/BlockState.kt:43 | string order is transitive |
| BlockStates.InsertFront | src/main/kotlin/mcvolume/block/BlockState.kt:43 | an entry whose name is at most the first name is inserted in front |
| BlockStates.InsertBehind | src/main/kotlin/mcvolume/block/BlockState.kt:43 | an entry whose name is above the first name goes behind it, so the first entry stays first |
| BlockStates.SortByName | src/main/kotlin/mcvolume/block/BlockState.kt:43 | the sorted properties are ordered by name and are a permutation of the input |
| BlockStates.SortedUnique | src/main/kotlin/mcvolume/block/BlockState.kt:38-43 | two name-sorted lists with unique names and the same entries are the same list, so the stored order depends only on the set of properties |
| BlockStates.SortSortedIsIdentity | src/main/kotlin/mcvolume/block/BlockState.kt:133 | sorting properties that are already sorted, with unique names, changes nothing (the second sort in `computeStateStr` is harmless) |
| BlockStates.UniqueNamesPermutation | src/main/kotlin/mcvolume/block/BlockState.kt:26-43 | whether names are unique depends only on the multiset of entries, so sorting keeps them unique |
| BlockStates.HasDuplicate | src/main/kotlin/mcvolume/block/BlockState.kt:27-35 | the walk with the names seen so far finds no duplicate exactly when names are unique and none was seen before |
| BlockStates.New | src/main/kotlin/mcvolume/block/BlockState.kt:25-51 | fails with an invalid-argument error exactly when a property name repeats; otherwise it keeps namespace and name and stores a name-sorted permutation of the properties, with unique names |
| BlockStates.NewPermutationInvariant | src/main/kotlin/mcvolume/block/BlockState.kt:38-43 | the order in which properties are given to `new` does not change the block state built |
| BlockStates.PropStrs | src/main/kotlin/mcvolume/block/BlockState.kt:133-135 | each property prints as `name=value`, one piece per property, in order |
| BlockStates.FromStrStateStr | src/main/kotlin/mcvolume/block/BlockState.kt:53-96 | round trip: parsing the printed form of a well-formed block state gives it back |
| BlockStates.EqualIffSame | src/main/kotlin/mcvolume/block/BlockState.kt:144-151 | on well-formed block states, equality by state string is structural equality |
| BlockStates.StateStrPermutationInvariant | src/main/kotlin/mcvolume/block/BlockState.kt:127-139 | the state string does not depend on the order of the properties |
| BlockStates.FromStrDefaultNamespace | src/main/kotlin/mcvolume/block/BlockState.kt:66-68 | a string with neither `:` nor `[` parses to that name in namespace `minecraft` with no properties |
| BlockStates.FromStrIgnoresLastChar | src/main/kotlin/mcvolume/block/BlockState.kt:81-83 | the closing bracket is never checked: whatever the last character is, it is dropped unread |
| BlockStates.FromStrEmptyPropsFails | src/main/kotlin/mcvolume/block/BlockState.kt:86-89 | an empty property list between the brackets is rejected, since its single empty piece has no `=` |
| BlockStates.GetPropIn | src/main/kotlin/mcvolume/block/BlockState.kt:100-104 | `getProp` is null exactly when no property has that name, and otherwise returns the value of a property with that name |
| BlockStates.GetPropUnique | src/main/kotlin/mcvolume/block/BlockState.kt:100-104 | with unique names, `getProp` returns v exactly when the property name=v is present |
| BlockStates.CommonPropsAgree | src/main/kotlin/mcvolume/block/BlockState.kt:114-119 | the loop passes exactly when every property of this state that the other state also names has the same value there |
| BlockStates.LooselyMatchesSymmetric | src/main/kotlin/mcvolume/block/BlockState.kt:112-121 | for unique names, loose matching is symmetric and means: same full name, and no shared name carries two different values |
| MutBlockStates.FindProp | src/main/kotlin/mcvolume/block/MutBlockState.kt:21-26 | -1 exactly when no property has the name; otherwise the index of the first property with that name |
| MutBlockStates.MutBlockState.constructor | src/main/kotlin/mcvolume/block/MutBlockState.kt:4-10 | keeps namespace, name and properties, fixes `hasProps` to whether the properties are non-empty, and starts with a dirty, empty cache |
| MutBlockStates.MutBlockState.GetStateStr | src/main/kotlin/mcvolume/block/MutBlockState.kt:11-18 | recomputes the string only when the cache is dirty, then stores it and clears the flag; the brackets follow the `hasProps` flag fixed at construction, so on a coherent cache the result is the state string of the current properties whenever that flag still matches them |
| MutBlockStates.MutBlockState.SetProp | src/main/kotlin/mcvolume/block/MutBlockState.kt:20-30 | as written: the properties become those with n set to v, and the cache is marked dirty only when n was absent (an overwrite leaves the cache stale) |
| MutBlockStates.MutBlockState.SetPropCoherent | src/main/kotlin/mcvolume/block/MutBlockState.kt:20-30 | corrected: same new properties, and the cache is invalidated so it stays coherent |
| MutBlockStates.MutBlockState.ToImmutable | src/main/kotlin/mcvolume/block/MutBlockState.kt:32-34 | the immutable copy holds the current properties in their current order |
| MutBlockStates.ToMutable | src/main/kotlin/mcvolume/block/BlockState.kt:123-125 | a fresh mutable copy describing the same block state, with a dirty cache and `hasProps` taken from the state |
| MutBlockStates.StateStrWith | src/main/kotlin/mcvolume/block/BlockState.kt:127-139 | `computeStateStr` with a stored flag: the state string when the flag matches the properties, the full name alone when the flag is false |
| MutBlockStates.MutBlockState.GetStateStrLive | src/main/kotlin/mcvolume/block/MutBlockState.kt:11-18 | corrected: with `hasProps` read from the current properties, a dirty cache yields the state string of the current properties |
| MutBlockStates.AddedPropUnprintedExample | src/main/kotlin/mcvolume/block/BlockState.kt:20 | as written: a state without properties made mutable and given one by `setProp` prints its full name alone, which is not its state string |
| MutBlockStates.AddedPropPrintedExample | src/main/kotlin/mcvolume/block/BlockState.kt:20 | corrected: the same calls print the state string with the new property |
| MutBlockStates.SetPropUnique | src/main/kotlin/mcvolume/block/MutBlockState.kt:20-30 | `setProp` keeps property names unique |
| MutBlockStates.SetPropEffect | src/main/kotlin/mcvolume/block/MutBlockState.kt:20-30 | after `setProp(n, v)`, `getProp(n)` is v and every other name keeps its value |
| MutBlockStates.StaleStateStrExample | src/main/kotlin/mcvolume/block/MutBlockState.kt:20-25 | reading the string, then overwriting a property's value, reads the old string again, which differs from the string of the current state |
| MutBlockStates.ValueChangesStateStr | src/main/kotlin/mcvolume/block/BlockState.kt:127-139 | two well-formed states differing in one property's value print differently |
| MutBlockStates.FreshStateStrExample | src/main/kotlin/mcvolume/block/MutBlockState.kt:20-30 | with the corrected `setProp` the same calls read the new string |
| VolBlocks.ToShort | src/main/kotlin/mcvolume/blockpalette/ListBlockPalette.kt:41 | `toShort()` yields a 16-bit signed value congruent to its input modulo 2^16 |
| VolBlocks.ToShortOfShort | src/main/kotlin/mcvolume/blockpalette/ListBlockPalette.kt:41 | a value that already fits in a Short is unchanged |
| VolBlocks.DenseIdsExact | src/main/kotlin/mcvolume/blockpalette/ListBlockPalette.kt:41 | while a palette has at most 2^15 entries, entry i carries id i exactly |
| VolBlocks.MaxKeyExists | src/main/kotlin/mcvolume/blockpalette/ListBlockPalette.kt:78 | non-empty mappings have a largest key |
| VolBlocks.Populated | src/main/kotlin/mcvolume/blockpalette/ListBlockPalette.kt:73-86 | population that succeeds gives dense, unlinked entries whose i-th state is the i-th mapping |
| VolBlocks.PopulatedComplete | src/main/kotlin/mcvolume/blockpalette/ListBlockPalette.kt:73-86 | mappings with every id 0..max present populate to exactly the unlinked entries for those ids |
| VolBlocks.PopulatedMissing | src/main/kotlin/mcvolume/blockpalette/ListBlockPalette.kt:79-82 | an unmapped id between 0 and the largest key makes population fail as an invalid palette |
| VolBlocks.MappingsOfDense | src/main/kotlin/mcvolume/blockpalette/ListBlockPalette.kt:88-94 | the mappings of a dense palette of at most 2^15 entries are exactly the ids 0..size-1 with their states |
| VolBlocks.PopulateOfMappings | src/main/kotlin/mcvolume/blockpalette/ListBlockPalette.kt:73-94 | round trip: populating from a dense palette's mappings rebuilds the same id-to-state table, unlinked |
| VolBlocks.MappingsOfPopulated | src/main/kotlin/mcvolume/blockpalette/ListBlockPalette.kt:73-94 | round trip the other way: the mappings of a populated table are the input mappings without their negative keys |
| ListPalettes.IdOf | src/main/kotlin/mcvolume/blockpalette/ListBlockPalette.kt:35-37 | -1 exactly when no entry has an equal state; otherwise the first entry with an equal state |
| ListPalettes.IdOfAppended | src/main/kotlin/mcvolume/blockpalette/ListBlockPalette.kt:35-44 | a state absent from the list is found at the position where it was appended |
| ListPalettes.IdOfDistinct | src/main/kotlin/mcvolume/blockpalette/ListBlockPalette.kt:35-37 | with distinct states, the lookup of entry i's state returns i |
| ListPalettes.ListBlockPalette.constructor | src/main/kotlin/mcvolume/blockpalette/ListBlockPalette.kt:10-21 | a new palette is unlinked and empty |
| ListPalettes.ListBlockPalette.GetBlock | src/main/kotlin/mcvolume/blockpalette/ListBlockPalette.kt:26-30 | fails when unlinked; otherwise null exactly when no entry has an equal state, else the first such entry |
| ListPalettes.ListBlockPalette.AddBlock | src/main/kotlin/mcvolume/blockpalette/ListBlockPalette.kt:39-44 | fails when unlinked; otherwise appends an entry with the volume's uuid, id size.toShort() and the state, and returns it |
| ListPalettes.ListBlockPalette.GetDefaultBlock | src/main/kotlin/mcvolume/blockpalette/ListBlockPalette.kt:47-50 | fails when unlinked or empty; otherwise entry 0 |
| ListPalettes.ListBlockPalette.GetOrAddBlock | src/main/kotlin/mcvolume/blockpalette/ListBlockPalette.kt:52-60 | fails when unlinked; returns the existing entry with an equal state unchanged, else appends one with the next id |
| ListPalettes.ListBlockPalette.GetFromId | src/main/kotlin/mcvolume/blockpalette/ListBlockPalette.kt:62-65 | fails when unlinked or the id is out of range; otherwise the entry at that id, which carries that id |
| ListPalettes.ListBlockPalette.Populate | src/main/kotlin/mcvolume/blockpalette/ListBlockPalette.kt:73-86 | fails when linked; otherwise succeeds exactly when the mappings populate, storing the populated table; an empty mapping fails before anything changes |
| ListPalettes.ListBlockPalette.ToUnlinked | src/main/kotlin/mcvolume/blockpalette/ListBlockPalette.kt:88-94 | on a dense palette the mappings are exactly ids 0..size-1 with their states |
| ListPalettes.ListBlockPalette.Link | src/main/kotlin/mcvolume/blockpalette/ListBlockPalette.kt:96-100 | fails when already linked; otherwise every entry is stamped with the volume's uuid, states and ids unchanged, and the palette is linked |
| HashedPalettes.HashIndexMeaning | src/main/kotlin/mcvolume/blockpalette/HashedBlockPalette.kt:22 | the hash map has a key exactly when some entry has that state string, and maps it to an entry with that string |
| HashedPalettes.HashIndexAppend | src/main/kotlin/mcvolume/blockpalette/HashedBlockPalette.kt:90-96 | appending an entry points its state at the new index and changes nothing else |
| HashedPalettes.HashIndexLast | src/main/kotlin/mcvolume/blockpalette/HashedBlockPalette.kt:69-72 | `putAll` keeps the last entry with each state: no later entry has that state |
| HashedPalettes.HashIndexOfStates | src/main/kotlin/mcvolume/blockpalette/HashedBlockPalette.kt:83-87 | the hash map depends only on the states, so relinking (restamping uuids) leaves it valid |
| HashedPalettes.HashIndexOfDistinct | src/main/kotlin/mcvolume/blockpalette/HashedBlockPalette.kt:69-72 | with distinct states, entry i's state maps to i |
| HashedPalettes.HashedBlockPalette.constructor | src/main/kotlin/mcvolume/blockpalette/HashedBlockPalette.kt:10-22 | a new palette is unlinked and empty |
| HashedPalettes.HashedBlockPalette.GetDefaultBlock | src/main/kotlin/mcvolume/blockpalette/HashedBlockPalette.kt:27-30 | fails when unlinked or empty; otherwise entry 0 |
| HashedPalettes.HashedBlockPalette.GetBlock | src/main/kotlin/mcvolume/blockpalette/HashedBlockPalette.kt:32-35 | fails when unlinked; otherwise found exactly when some entry has an equal state, and the entry found has an equal state |
| HashedPalettes.HashedBlockPalette.GetOrAddBlock | src/main/kotlin/mcvolume/blockpalette/HashedBlockPalette.kt:37-42 | fails when unlinked; an existing state is returned with nothing changed, a new one is appended with the next id; distinct states stay distinct and the hash map then points at the entry |
| HashedPalettes.HashedBlockPalette.AddBlock | src/main/kotlin/mcvolume/blockpalette/HashedBlockPalette.kt:90-96 | fails when unlinked; otherwise appends the entry with id size.toShort() and indexes it; a new state keeps states distinct |
| HashedPalettes.HashedBlockPalette.GetFromId | src/main/kotlin/mcvolume/blockpalette/HashedBlockPalette.kt:44-47 | fails when unlinked or out of range; otherwise the entry at that id |
| HashedPalettes.HashedBlockPalette.Link | src/main/kotlin/mcvolume/blockpalette/HashedBlockPalette.kt:83-87 | fails when already linked; otherwise stamps every entry with the volume's uuid and links |
| HashedPalettes.HashedBlockPalette.Populate | src/main/kotlin/mcvolume/blockpalette/HashedBlockPalette.kt:55-73 | fails when linked; otherwise succeeds exactly when the mappings populate, storing the table and rebuilding the hash map over it |
| HashedPalettes.HashedBlockPalette.ToUnlinked | src/main/kotlin/mcvolume/blockpalette/HashedBlockPalette.kt:75-81 | on a dense palette the mappings are exactly ids 0..size-1 with their states |
| Bytes.ToShort | src/main/kotlin/mcvolume/McvUtils.kt:301 | a value read as a Short is 16-bit signed and congruent to its input modulo 2^16 |
| Bytes.ToInt | src/main/kotlin/mcvolume/McvUtils.kt:302 | a value read as an Int is 32-bit signed and congruent to its input modulo 2^32 |
| Bytes.LeBytesRoundTrip | src/main/kotlin/mcvolume/McvUtils.kt:22-24 | the n little-endian bytes of v (`(v shr 8i).toByte()`) read back as v modulo 2^(8n) |
| Bytes.BeIsReversedLe | src/main/kotlin/mcvolume/McvUtils.kt:26-38 | the big-endian bytes are the little-endian ones reversed, and read back big-endian as v modulo 2^(8n) |
| Bytes.IntBytesRoundTrip | src/main/kotlin/mcvolume/McvUtils.kt:22-38 | an Int written as 4 bytes in either order reads back unchanged |
| Bytes.ShortBytesRoundTrip | src/main/kotlin/mcvolume/McvUtils.kt:301 | a Short written as 2 bytes in either order reads back unchanged |
| Bytes.LongBytesRoundTrip | src/main/kotlin/mcvolume/McvUtils.kt:40-42 | a Long bit pattern written as 8 bytes in either order reads back unchanged |
| Varints.U32 | src/main/kotlin/mcvolume/McvUtils.kt:210-217 | the unsigned 32-bit view (what `ushr` shifts) lies below 2^32 |
| Varints.VarintBytes | src/main/kotlin/mcvolume/McvUtils.kt:210-217 | a varint is never empty |
| Varints.PushVarint | src/main/kotlin/mcvolume/McvUtils.kt:210-217 | the loop appends exactly the varint encoding of the unsigned view of i to the buffer |
| Varints.ReadVarint | src/main/kotlin/mcvolume/McvUtils.kt:190-208 | the loop computes the recursive reading: groups of 7 bits OR-ed in, at most 5 bytes, Err past the end of the buffer or past 5 bytes |
| Varints.VarintLength | src/main/kotlin/mcvolume/McvUtils.kt:210-217 | the encoding takes at most k bytes exactly when the value is below 2^(7k) |
| Varints.VarintContinuation | src/main/kotlin/mcvolume/McvUtils.kt:212-216 | every byte but the last has the continuation bit set, and the last does not |
| Varints.IntVarintLength | src/main/kotlin/mcvolume/McvUtils.kt:210-217 | any Int encodes in 1 to 5 bytes |
| Varints.U32RoundTrip | src/main/kotlin/mcvolume/McvUtils.kt:210-217 | reading the unsigned view back as an Int gives the original Int, negative ones included |
| Varints.ReadFromVarint | src/main/kotlin/mcvolume/McvUtils.kt:190-208 | reading an encoded value at any offset continues the accumulated value and stops right after its last byte |
| Varints.VarintRoundTrip | src/main/kotlin/mcvolume/McvUtils.kt:190-217 | round trip: reading the varint of i, between any prefix and suffix, gives i and the index just after it |
| Varints.TooLongThrows | src/main/kotlin/mcvolume/McvUtils.kt:198-200 | a run of continuation bytes longer than the remaining budget fails as "varint too long" |
| Varints.ReadFromEnds | src/main/kotlin/mcvolume/McvUtils.kt:190-208 | a successful read consumes 1 to 5 bytes, all with the continuation bit except the last |
| Packing.LowBits | src/main/kotlin/mcvolume/McvUtils.kt:105 | the masked value is below 2^(bitLength mod 32), the JVM's shift distance |
| Packing.WordLFAppend | src/main/kotlin/mcvolume/McvUtils.kt:110 | OR-ing the next field at the next free offset adds it times 2^(offset) |
| Packing.WordLFBound | src/main/kotlin/mcvolume/McvUtils.kt:110 | a word of n fields of w bits is below 2^(n*w) |
| Packing.WordLFField | src/main/kotlin/mcvolume/McvUtils.kt:110-140 | field j of a lower-first word is recovered by shifting right by j*w and masking |
| Packing.WordHFAppend | src/main/kotlin/mcvolume/McvUtils.kt:79-86 | the higher-first word grows by shifting left one field and OR-ing the new value in |
| Packing.WordHFBound | src/main/kotlin/mcvolume/McvUtils.kt:79-86 | a higher-first word of n fields of w bits is below 2^(n*w) |
| Packing.WordHFField | src/main/kotlin/mcvolume/McvUtils.kt:79-86 | field j of a higher-first word sits (n-1-j) fields above the bottom |
| Packing.PerLong | src/main/kotlin/mcvolume/McvUtils.kt:106 | at least one value goes into each long |
| Packing.Fields | src/main/kotlin/mcvolume/McvUtils.kt:105-110 | one masked field per value, each below the mask bound |
| Packing.PackLF | src/main/kotlin/mcvolume/McvUtils.kt:104-121 | the number of longs is the ceiling of values / values-per-long |
| Packing.MakePackedLongArrLF | src/main/kotlin/mcvolume/McvUtils.kt:100-122 | empty data gives no longs, a non-positive bit length fails, otherwise the loop yields the runs of values-per-long masked fields packed lowest first |
| Packing.PackLFField | src/main/kotlin/mcvolume/McvUtils.kt:100-122 | value j of run k is at bits j*bitLength of long k |
| Packing.PackedLongsFit | src/main/kotlin/mcvolume/McvUtils.kt:100-122 | every packed long fits in 64 bits |
| Packing.UnpackFrom | src/main/kotlin/mcvolume/McvUtils.kt:139-150 | the unpacking reads exactly the requested count |
| Packing.UnpackLongArrLF | src/main/kotlin/mcvolume/McvUtils.kt:125-153 | no longs or no values give an empty array, a negative count fails, otherwise the loop reads the values one cursor step at a time |
| Packing.FlushAt | src/main/kotlin/mcvolume/McvUtils.kt:112-113 | the unpacker moves to the next long exactly where the packer started one |
| Packing.UnpackReadsValue | src/main/kotlin/mcvolume/McvUtils.kt:140-141 | at the cursor of value i the unpacker reads data[i] |
| Packing.UnpackPacked | src/main/kotlin/mcvolume/McvUtils.kt:100-153 | from value i on, unpacking the packed longs gives the data back |
| Packing.PackUnpackRoundTrip | src/main/kotlin/mcvolume/McvUtils.kt:100-153 | round trip: values that fit in 1..64 bits, packed lowest first and unpacked with the same bit length and count, come back unchanged |
| Packing.PerLongHF | src/main/kotlin/mcvolume/McvUtils.kt:82 | at least one value goes into each higher-first long |
| Packing.IntFields | src/main/kotlin/mcvolume/McvUtils.kt:79 | one masked field per Int, each below the mask bound |
| Packing.MakePackedLongArrHF | src/main/kotlin/mcvolume/McvUtils.kt:65-95 | the loop yields the runs of values packed highest first, with a partial last long kept |
| Packing.PackHFField | src/main/kotlin/mcvolume/McvUtils.kt:65-95 | in a full long k, value j sits (g-1-j) fields above the bottom |
| ByteBufs.NextCapacity | src/main/kotlin/mcvolume/McvUtils.kt:271-274 | a growth step doubles the capacity, or falls back to max(2 000 000 000, needed) when doubling overflows |
| ByteBufs.GrownCapacity | src/main/kotlin/mcvolume/McvUtils.kt:264-282 | the grown capacity is at least the old one and the needed size, within Int range, and unchanged when it already suffices |
| ByteBufs.GrownCapacityTight | src/main/kotlin/mcvolume/McvUtils.kt:268-281 | growth stops below twice the need unless the fallback was taken |
| ByteBufs.Put | src/main/kotlin/mcvolume/McvUtils.kt:264-314 | a write puts the bytes at the position, advances it, grows the size to cover them and keeps the bytes before the position |
| ByteBufs.RegrownStep | src/main/kotlin/mcvolume/McvUtils.kt:275-280 | regrowing twice is regrowing once to the final capacity |
| ByteBufs.Read | src/main/kotlin/mcvolume/McvUtils.kt:300-306 | a read succeeds exactly when enough bytes remain, and advances by the count read |
| ByteBufs.Seek | src/main/kotlin/mcvolume/McvUtils.kt:286-288 | a seek succeeds exactly within [0, capacity] and changes only the position |
| ByteBufs.PutContents | src/main/kotlin/mcvolume/McvUtils.kt:294-314 | after a write the contents are the bytes before the position, the new bytes, then whatever was already written beyond them |
| ByteBufs.PutAppends | src/main/kotlin/mcvolume/McvUtils.kt:294-314 | writing at the end appends to the contents |
| ByteBufs.PutThenRead | src/main/kotlin/mcvolume/McvUtils.kt:286-314 | seeking back to where a write started and reading that many bytes gives them back |
| ByteBufs.EncodeDecode | src/main/kotlin/mcvolume/McvUtils.kt:301-313 | a Short, Int or Long written in either byte order reads back unchanged |
| ByteBufs.CopyBelow | src/main/kotlin/mcvolume/McvUtils.kt:275-278 | the new array holds the old bytes below the position and zeros above |
| ByteBufs.GrowableByteBuf.constructor | src/main/kotlin/mcvolume/McvUtils.kt:253-262 | a zeroed buffer of the initial capacity, empty, at position 0 |
| ByteBufs.GrowableByteBuf.EnsureCapacity | src/main/kotlin/mcvolume/McvUtils.kt:264-282 | the size covers position + needed, the capacity is the grown one, the bytes below the position are kept |
| ByteBufs.GrowableByteBuf.PutBytes | src/main/kotlin/mcvolume/McvUtils.kt:314 | the new state is the abstract write of the bytes; a write past Int range fails and changes nothing |
| ByteBufs.GrowableByteBuf.PutByte | src/main/kotlin/mcvolume/McvUtils.kt:308 | the new state is the abstract write of one byte |
| ByteBufs.GrowableByteBuf.PutShort | src/main/kotlin/mcvolume/McvUtils.kt:309 | the new state is the abstract write of the Short's 2 bytes in the buffer's byte order |
| ByteBufs.GrowableByteBuf.PutInt | src/main/kotlin/mcvolume/McvUtils.kt:310 | the new state is the abstract write of the Int's 4 bytes in the buffer's byte order |
| ByteBufs.GrowableByteBuf.PutLong | src/main/kotlin/mcvolume/McvUtils.kt:313 | the new state is the abstract write of the Long's 8 bytes in the buffer's byte order |
| ByteBufs.GrowableByteBuf.GetByte | src/main/kotlin/mcvolume/McvUtils.kt:300 | underflow fails and changes nothing; otherwise returns the byte at the position and advances by one |
| ByteBufs.GrowableByteBuf.GetShort | src/main/kotlin/mcvolume/McvUtils.kt:301 | underflow fails; otherwise decodes the next 2 bytes in the byte order as a Short and advances by 2 |
| ByteBufs.GrowableByteBuf.GetInt | src/main/kotlin/mcvolume/McvUtils.kt:302 | underflow fails; otherwise decodes the next 4 bytes as an Int and advances by 4 |
| ByteBufs.GrowableByteBuf.GetLong | src/main/kotlin/mcvolume/McvUtils.kt:303 | underflow fails; otherwise decodes the next 8 bytes as a Long and advances by 8 |
| ByteBufs.GrowableByteBuf.GetBytes | src/main/kotlin/mcvolume/McvUtils.kt:306 | a negative amount fails; otherwise returns the next bytes and advances, or fails after consuming the rest when too few remain |
| ByteBufs.GrowableByteBuf.SeekTo | src/main/kotlin/mcvolume/McvUtils.kt:286-288 | the new state is the abstract seek; an out-of-range index fails and changes nothing |
| ByteBufs.GrowableByteBuf.ToByteArray | src/main/kotlin/mcvolume/McvUtils.kt:294-298 | returns exactly the first `size` bytes written |
| McvUtils.WriteIntLe | src/main/kotlin/mcvolume/McvUtils.kt:22-24 | appends exactly the 4 little-endian bytes of the Int |
| McvUtils.WriteIntBe | src/main/kotlin/mcvolume/McvUtils.kt:26-32 | appends exactly the 4 big-endian bytes of the Int |
| McvUtils.IntToBeBytes | src/main/kotlin/mcvolume/McvUtils.kt:34-38 | the 4 big-endian bytes, which read back as the Int |
| McvUtils.WriteLongLe | src/main/kotlin/mcvolume/McvUtils.kt:40-42 | appends exactly the 8 little-endian bytes of the Long |
| McvUtils.WriteIVec3Le | src/main/kotlin/mcvolume/McvUtils.kt:44-48 | appends x, y and z as 4 little-endian bytes each |
| McvUtils.LongsLeAt | src/main/kotlin/mcvolume/McvUtils.kt:50-54 | byte j of long k is at offset 8k + j of the encoding |
| McvUtils.WriteLongBufLe | src/main/kotlin/mcvolume/McvUtils.kt:50-54 | appends 8 bytes per long, byte j of long k at offset 8k + j after the old contents |
| McvUtils.WriteByteArr | src/main/kotlin/mcvolume/McvUtils.kt:56-60 | appends the array, unchanged, to the list |
| McvUtils.ByteVecToByteArray | src/main/kotlin/mcvolume/McvUtils.kt:157-161 | a new array holding the list's bytes in order |
| McvUtils.TruncAgrees | src/main/kotlin/mcvolume/McvUtils.kt:171-172 | Kotlin's truncating `/` and `%` agree with Euclidean division on non-negative operands |
| McvUtils.JobsStep | src/main/kotlin/mcvolume/McvUtils.kt:176-183 | one loop turn keeps the jobs contiguous, each of the base size plus one for the first `rem` threads |
| McvUtils.JobsDone | src/main/kotlin/mcvolume/McvUtils.kt:169-186 | at the end the jobs cover the range, sizes differ by at most one, and there are min(threads, elements) of them |
| McvUtils.DistributeRange | src/main/kotlin/mcvolume/McvUtils.kt:169-186 | zero threads fail (division by zero), negative thread counts give no job, otherwise the non-empty jobs cover [start, end) contiguously, never grow and differ by at most one |
| McvRemap.Distinct | src/main/kotlin/mcvolume/io/Mcv.kt:231-249 | the id list has no duplicates, holds exactly the ids that occur in the chunk, and is no longer than the chunk |
| McvRemap.IndexOf | src/main/kotlin/mcvolume/io/Mcv.kt:238 | the position of the first occurrence of an id present in the list |
| McvRemap.IndexOfNoDup | src/main/kotlin/mcvolume/io/Mcv.kt:238 | in a duplicate-free list, an element's lookup gives its own position |
| McvRemap.IndexOfAppend | src/main/kotlin/mcvolume/io/Mcv.kt:238-242 | appending an id keeps the positions of the ids already present and gives the new id the last position |
| McvRemap.LocalIds | src/main/kotlin/mcvolume/io/Mcv.kt:231-249 | one local id per block |
| McvRemap.MapMatchesNew | src/main/kotlin/mcvolume/io/Mcv.kt:238-242 | adding a new id to both directions keeps the hash map and the list in agreement |
| McvRemap.DoneMatchesNew | src/main/kotlin/mcvolume/io/Mcv.kt:238-245 | a first-seen id gets the next local id and the remapped prefix stays correct |
| McvRemap.DoneMatchesSeen | src/main/kotlin/mcvolume/io/Mcv.kt:238-245 | an id already seen gets its existing local id |
| McvRemap.RemapEnd | src/main/kotlin/mcvolume/io/Mcv.kt:231-249 | when the loop ends, the list is the ids in order of first appearance and the remapped array is their local ids |
| McvRemap.LocalMapping | src/main/kotlin/mcvolume/io/Mcv.kt:238-245 | one loop turn keeps the invariant |
| McvRemap.RemapChunkBlockIds | src/main/kotlin/mcvolume/io/Mcv.kt:231-249 | returns the ids in order of first appearance and every block replaced by its index there, as a Short |
| McvRemap.ToShortOfLocal | src/main/kotlin/mcvolume/io/Mcv.kt:239 | a local id below 2^15 is unchanged by `toShort()`, and any local id below 2^16 keeps its low 16 bits |
| McvRemap.BitWidth | src/main/kotlin/mcvolume/io/Mcv.kt:263-264 | v fits in the width, and the width is the smallest that fits |
| McvRemap.ChunkBitLength | src/main/kotlin/mcvolume/io/Mcv.kt:263-264 | `(maxVal.takeHighestOneBit() shl 1).countTrailingZeroBits()` is 32 for maxVal <= 0, and otherwise the bit width of maxVal, in 1..31 |
| McvRemap.BitWidthBelow | src/main/kotlin/mcvolume/io/Mcv.kt:263-264 | a positive Int needs at most 31 bits |
| McvRemap.DistinctShortsBound | src/main/kotlin/mcvolume/io/Mcv.kt:231-249 | a chunk has at most 2^16 distinct Short ids |
| McvCodec.ChunkPacking | src/main/kotlin/mcvolume/io/Mcv.kt:261-271 | the chunk record's id list is the distinct ids, its value count is the number of blocks and its bit length comes from the largest local id |
| McvCodec.DecEach | src/main/kotlin/mcvolume/io/Mcv.kt:420-441 | reading n fixed-width values gives n values and stays within the bytes |
| McvCodec.DecLength | src/main/kotlin/mcvolume/io/Mcv.kt:421 | an array length occupies 4 bytes |
| McvCodec.DecString | src/main/kotlin/mcvolume/io/Mcv.kt:395-399 | a string read stays within the bytes |
| McvCodec.DecVolBlockState | src/main/kotlin/mcvolume/io/Mcv.kt:351-356 | a palette entry consumes at least one byte and stays within the bytes |
| McvCodec.DecEntries | src/main/kotlin/mcvolume/io/Mcv.kt:336-340 | reading n entries gives n entries |
| McvCodec.DecBlockPalette | src/main/kotlin/mcvolume/io/Mcv.kt:313-325 | a palette is read only for type byte 0 (list) or 1 (hashed); any other type byte fails |
| McvCodec.Rebuild | src/main/kotlin/mcvolume/io/Mcv.kt:286 | rebuilding succeeds exactly when every local id, read as a signed Short, indexes the id list |
| McvCodec.RebuildUnsigned | src/main/kotlin/mcvolume/io/Mcv.kt:286 | with local ids read unsigned, it succeeds exactly when every id mod 2^16 indexes the list |
| McvRoundTrip.AtSlice | src/main/kotlin/mcvolume/io/Mcv.kt:389-460 | bytes e sit at offset p exactly when the slice there equals e |
| McvRoundTrip.AtSplit | src/main/kotlin/mcvolume/io/Mcv.kt:389-460 | two encodings written one after the other sit one after the other |
| McvRoundTrip.IntAtEnc | src/main/kotlin/mcvolume/io/Mcv.kt:402-414 | an Int written little-endian reads back |
| McvRoundTrip.DecEachAt | src/main/kotlin/mcvolume/io/Mcv.kt:416-441 | n values written at fixed width read back as their residues, ending right after them |
| McvRoundTrip.DecLengthAt | src/main/kotlin/mcvolume/io/Mcv.kt:416-441 | an array length reads back |
| McvRoundTrip.ShortResidues | src/main/kotlin/mcvolume/io/Mcv.kt:425-432 | Shorts come back from their 2-byte residues |
| McvRoundTrip.IntResidues | src/main/kotlin/mcvolume/io/Mcv.kt:434-441 | Ints come back from their 4-byte residues |
| McvRoundTrip.LongResidues | src/main/kotlin/mcvolume/io/Mcv.kt:416-423 | Long bit patterns come back from their 8-byte residues |
| McvRoundTrip.DecShortArrAt | src/main/kotlin/mcvolume/io/Mcv.kt:425-432 | `getShortArr` reads back what `putShortArr` wrote |
| McvRoundTrip.DecIntArrAt | src/main/kotlin/mcvolume/io/Mcv.kt:434-441 | `getIntArr` reads back what `putIntArr` wrote |
| McvRoundTrip.DecLongArrAt | src/main/kotlin/mcvolume/io/Mcv.kt:416-423 | `getLongArr` reads back what `putLongArr` wrote |
| McvRoundTrip.DecStringAt | src/main/kotlin/mcvolume/io/Mcv.kt:389-399 | `getString` reads back what `putString` wrote |
| McvRoundTrip.DecIVec3At | src/main/kotlin/mcvolume/io/Mcv.kt:402-414 | `getIVec3` reads back what `putIVec3` wrote |
| McvRoundTrip.DecBoundaryAt | src/main/kotlin/mcvolume/io/Mcv.kt:376-386 | `getIntBoundary` reads back a normal box, in 24 bytes |
| McvRoundTrip.DecMiscDataAt | src/main/kotlin/mcvolume/io/Mcv.kt:360-372 | the misc data (three boxes) reads back, in 72 bytes |
| McvRoundTrip.DecVolBlockStateAt | src/main/kotlin/mcvolume/io/Mcv.kt:346-356 | a palette entry (id and state string) reads back |
| McvRoundTrip.DecEntriesAt | src/main/kotlin/mcvolume/io/Mcv.kt:327-340 | the entries written read back in order |
| McvRoundTrip.DecBlockPaletteAt | src/main/kotlin/mcvolume/io/Mcv.kt:299-325 | the palette kind and its entries read back |
| McvRoundTrip.DecPackedAt | src/main/kotlin/mcvolume/io/Mcv.kt:445-460 | the packed block data (count, bit length, longs) reads back |
| McvRoundTrip.ChunkPackingFits | src/main/kotlin/mcvolume/io/Mcv.kt:261-271 | the chunk's packed data fits the format, with a bit length in 1..32 |
| McvRoundTrip.LocalIdsFit | src/main/kotlin/mcvolume/io/Mcv.kt:261-265 | every local id fits the chosen bit length |
| McvRoundTrip.UnpackChunkIds | src/main/kotlin/mcvolume/io/Mcv.kt:261-286 | unpacking the packed longs gives the local ids back |
| McvRoundTrip.LocalIdAt | src/main/kotlin/mcvolume/io/Mcv.kt:236-245 | a block's local id is its index in the id list, as a Short |
| McvRoundTrip.RebuildLocalIds | src/main/kotlin/mcvolume/io/Mcv.kt:286 | with at most 2^15 distinct ids the local ids map back to the original blocks |
| McvRoundTrip.RebuildLocalIdsWraps | src/main/kotlin/mcvolume/io/Mcv.kt:286 | with more than 2^15 distinct ids a local id wraps negative and the rebuild fails |
| McvRoundTrip.RebuildUnsignedLocalIds | src/main/kotlin/mcvolume/io/Mcv.kt:286 | read unsigned, the local ids always map back to the original blocks |
| McvRoundTrip.DecChunkFromParts | src/main/kotlin/mcvolume/io/Mcv.kt:273-295 | a chunk is decoded from its three parts |
| McvRoundTrip.DecChunkFromPartsFails | src/main/kotlin/mcvolume/io/Mcv.kt:273-295 | a failing rebuild fails the chunk read with the same error |
| McvRoundTrip.UnpackedChunk | src/main/kotlin/mcvolume/io/Mcv.kt:261-295 | the written parts rebuild the blocks exactly when at most 2^15 ids occur, and always when read unsigned |
| McvRoundTrip.DecChunkAt | src/main/kotlin/mcvolume/io/Mcv.kt:261-295 | round trip: `getMcvChunk` reads back the position and blocks `putMcvChunk` wrote, for a chunk with at most 2^15 distinct ids |
| McvRoundTrip.DecChunkTooManyIds | src/main/kotlin/mcvolume/io/Mcv.kt:239 | as written, a chunk with more than 2^15 distinct ids does not read back |
| McvRoundTrip.DecChunkUnsignedAt | src/main/kotlin/mcvolume/io/Mcv.kt:261-295 | with unsigned local ids every chunk reads back |
| McvRoundTrip.WideChunk | src/main/kotlin/mcvolume/io/Mcv.kt:231-249 | a chunk of 32769 blocks |
| McvRoundTrip.WideChunkIds | src/main/kotlin/mcvolume/io/Mcv.kt:231-249 | it has 32769 distinct ids, so it falls in the failing case |
| McvFile.McvPath | src/main/kotlin/mcvolume/io/Mcv.kt:107-108 | the path ends in ".mcv", extends the given one, and is the given one exactly when it already ended so |
| McvFile.McvPathIdempotent | src/main/kotlin/mcvolume/io/Mcv.kt:107-108 | adding the suffix twice is adding it once |
| McvFile.Written | src/main/kotlin/mcvolume/io/Mcv.kt:135-150 | at most one record per grid slot |
| McvFile.CountIsWritten | src/main/kotlin/mcvolume/io/Mcv.kt:131-150 | the count of non-null chunks (the table length) equals the number of chunk records written |
| McvFile.GridDims | src/main/kotlin/mcvolume/io/Mcv.kt:136-138 | a non-empty normal grid has positive width along X and Z |
| McvFile.ExportMcvBytes | src/main/kotlin/mcvolume/io/Mcv.kt:102-159 | corrected `iterYzx` guard (the IntBoundary finding): the bytes before gzip are the header, the location table and the chunk records in Y-Z-X order of the grid |
| McvFile.WriteChunks | src/main/kotlin/mcvolume/io/Mcv.kt:130-150 | the loop writes the zeroed table, appends each chunk record and patches its table entry with its start offset |
| McvFile.WriteSlot | src/main/kotlin/mcvolume/io/Mcv.kt:137-150 | one turn: an empty slot is skipped, a chunk is appended and its location patched in, then the cursor goes back to the end |
| McvFile.WroteNone | src/main/kotlin/mcvolume/io/Mcv.kt:131-133 | before the loop the buffer holds the header and a zeroed table |
| McvFile.WroteAll | src/main/kotlin/mcvolume/io/Mcv.kt:135-153 | after the loop the buffer is the file layout |
| McvFile.WriteStep | src/main/kotlin/mcvolume/io/Mcv.kt:141-147 | appending a record and splicing its offset into the table moves the invariant one record on |
| McvFile.SpliceMiddle | src/main/kotlin/mcvolume/io/Mcv.kt:144-147 | overwriting a table entry in place leaves the bytes around it alone |
| McvFile.Install | src/main/kotlin/mcvolume/io/Mcv.kt:212-217 | placing a chunk keeps the number of slots |
| McvFile.EmptySlots | src/main/kotlin/mcvolume/io/Mcv.kt:199 | the chunk array starts all null |
| McvFile.Populated | src/main/kotlin/mcvolume/io/Mcv.kt:212-217 | placing the chunks read gives one slot per grid cell |
| McvFile.Populate | src/main/kotlin/mcvolume/io/Mcv.kt:211-217 | the loop over the location table computes the recursive placement, failing on the first bad chunk |
| McvFile.PopulatedFails | src/main/kotlin/mcvolume/io/Mcv.kt:211-217 | a failure on a prefix of the table fails the whole load |
| McvFile.LoadMcvBytes | src/main/kotlin/mcvolume/io/Mcv.kt:169-222 | the reader runs misc data, palette, table and chunks in order, as the load function states |
| McvFile.ChunkAtLoc | src/main/kotlin/mcvolume/io/Mcv.kt:141-145 | table entry i points at chunk record i |
| McvFile.LocationTable | src/main/kotlin/mcvolume/io/Mcv.kt:131-145 | the table reads back as the record offsets, each within the file |
| McvFile.PopulatedIsPlaced | src/main/kotlin/mcvolume/io/Mcv.kt:211-217 | reading the chunks at the table's offsets places the records that were written |
| McvFile.PlacedWritten | src/main/kotlin/mcvolume/io/Mcv.kt:135-150 | placing the records written from a prefix of the slots gives that prefix back, nulls after it |
| McvFile.ReadWrittenChunks | src/main/kotlin/mcvolume/io/Mcv.kt:261-295 | every chunk record written reads back at its offset |
| McvFile.ExportThenLoad | src/main/kotlin/mcvolume/io/Mcv.kt:102-222 | round trip: loading the bytes `exportToMcv` writes (before gzip) gives back the misc data, the palette kind and entries, and every chunk slot |
| McvFile.HeaderLoads | src/main/kotlin/mcvolume/io/Mcv.kt:188-194 | the misc data, palette and table read back from the file head |
| McvFile.PlacedAllWritten | src/main/kotlin/mcvolume/io/Mcv.kt:135-150 | placing all records written gives every slot back |
| McvFile.ChunksLoadPlaced | src/main/kotlin/mcvolume/io/Mcv.kt:211-217 | the chunks read back from the file are the slots written |
| McvFile.LoadParts | src/main/kotlin/mcvolume/io/Mcv.kt:169-222 | a file whose parts read back loads to those parts |
| McvFile.HeaderAt | src/main/kotlin/mcvolume/io/Mcv.kt:117-127 | the misc data sits at offset 0 and the palette at offset 72 |
| McvFile.ChunksLoad | src/main/kotlin/mcvolume/io/Mcv.kt:211-217 | populating from the written location table puts every chunk back in its slot |
| Chunks.LocalIdxIsYzx | src/main/kotlin/mcvolume/Chunk.kt:68-70 | `localToBlockIdx` is the Y-Z-X index in the chunk's local box, which has 2^(3b) cells |
| Chunks.BlockIdxIsPointAt | src/main/kotlin/mcvolume/Chunk.kt:72-78 | `blockIdxToLocal` is the Y-Z-X decoding of the index |
| Chunks.BlockIdxRoundTrip | src/main/kotlin/mcvolume/Chunk.kt:68-78 | `blockIdxToLocal` and `localToBlockIdx` are inverse bijections between local positions and [0, 2^(3b)) |
| Chunks.LocalIdxInjective | src/main/kotlin/mcvolume/Chunk.kt:68-70 | two distinct local positions have distinct cell indices |
| Chunks.Chunk.constructor | src/main/kotlin/mcvolume/Chunk.kt:36-44 | a new chunk has 2^(3b) cells, all holding the default id, and no tile data |
| Chunks.Chunk.SetTileData | src/main/kotlin/mcvolume/Chunk.kt:52-58 | null removes the entry, otherwise it is stored; afterwards reading that position gives the data, and every other position is unchanged |
| Chunks.Chunk.SetBlock | src/main/kotlin/mcvolume/Chunk.kt:60-62 | the position now reads the entry's palette id, every other position is unchanged, and exactly one cell of the array is written |
| Chunks.Chunk.ComputeMinLocalPos | src/main/kotlin/mcvolume/Chunk.kt:84-93 | None exactly when every cell is default; otherwise a lower bound of all non-default local positions attained on each axis, i.e. their componentwise minimum |
| Chunks.Chunk.ComputeMaxLocalPos | src/main/kotlin/mcvolume/Chunk.kt:95-105 | None exactly when every cell is default; otherwise the componentwise maximum of the non-default local positions |
| Chunks.ScanStep | src/main/kotlin/mcvolume/Chunk.kt:80-82 | a prefix is all default exactly when the shorter prefix is and the new cell is |
| Chunks.BelowStep | src/main/kotlin/mcvolume/Chunk.kt:86-91 | folding `min` over one more non-default cell keeps a lower bound of the scanned cells |
| Chunks.AboveStep | src/main/kotlin/mcvolume/Chunk.kt:97-102 | folding `max` over one more non-default cell keeps an upper bound of the scanned cells |
| Chunks.AttainedStep | src/main/kotlin/mcvolume/Chunk.kt:86-102 | the folded min or max is still attained on each axis by some scanned non-default cell |
| ChunkGrid.ChunkSplit | src/main/kotlin/mcvolume/McVolume.kt:626-636 | a position is its chunk's origin plus its local coordinates, and the local coordinates lie inside a chunk |
| ChunkGrid.ChunkSplitInjective | src/main/kotlin/mcvolume/McVolume.kt:626-636 | chunk position and local coordinates together determine the position |
| ChunkGrid.InChunkBox | src/main/kotlin/mcvolume/McVolume.kt:626-636 | a position lies in chunk c's box exactly when its chunk position is c, and its local coordinates are then its offset from c's origin |
| ChunkGrid.ScaledShape | src/main/kotlin/mcvolume/McVolume.kt:275-308 | the loaded box of a grid is the grid's corners scaled by the chunk side |
| ChunkGrid.ScaledInside | src/main/kotlin/mcvolume/McVolume.kt:275-308 | a position is in the loaded box exactly when its chunk is in the grid |
| ChunkGrid.GridForCovers | src/main/kotlin/mcvolume/McVolume.kt:278-283 | the chunk grid for an area runs from the chunk of its low corner to the chunk of its (rounded-up) high corner, is normal and its loaded box contains the area |
| ChunkGrid.ShiftedSplit | src/main/kotlin/mcvolume/McVolume.kt:260-266 | shifting a position by whole chunks shifts its chunk position and keeps its local coordinates |
| ChunkGrid.YzxIdxMoved | src/main/kotlin/mcvolume/McVolume.kt:260-266 | moving a box and a point together keeps the point's Y-Z-X index |
| ChunkGrid.ScaledMoved | src/main/kotlin/mcvolume/McVolume.kt:260-266 | the loaded box of a shifted grid is the loaded box shifted by whole chunks |
| ChunkGrid.ChunkBoundsCover | src/main/kotlin/mcvolume/McVolume.kt:638-640 | the chunk bounds of a box contain the chunk of each of its points |
| ChunkGrid.ChunkBoundsInside | src/main/kotlin/mcvolume/McVolume.kt:638-640 | the chunk bounds of a box inside the loaded area lie inside the chunk grid |
| VolumeSlots.LocalIdxRange | src/main/kotlin/mcvolume/McVolume.kt:634-636 | the cell index of any position within its chunk lies in [0, 2^(3b)) |
| VolumeSlots.LoadedIdx | src/main/kotlin/mcvolume/McVolume.kt:614-636 | a position of the loaded area has its chunk inside the chunk grid, a slot index in range, and a local offset inside the chunk |
| VolumeSlots.SameSlot | src/main/kotlin/mcvolume/McVolume.kt:614-636 | two distinct positions whose chunks are the same slot of the grid sit at distinct cells of that chunk |
| VolumeSlots.WithId | src/main/kotlin/mcvolume/McVolume.kt:160-177 | writing an id leaves the slot count and chunk sizes as they were; a slot becomes empty only if it already was and the id is the default one |
| VolumeSlots.WithIdEffect | src/main/kotlin/mcvolume/McVolume.kt:160-177 | after `setVolBlockState` at p, p reads back the id, every other position reads what it read before, and no tile data changes |
| VolumeSlots.WithTile | src/main/kotlin/mcvolume/McVolume.kt:184-201 | storing tile data keeps slot count and chunk sizes; a slot stays empty only when it was empty and the data is removed |
| VolumeSlots.WithTileEffect | src/main/kotlin/mcvolume/McVolume.kt:184-201 | after `setTileData` at p, p reads back the data, every other position keeps its tile data, and no id changes |
| VolumeSlots.ShiftedIn | src/main/kotlin/mcvolume/McVolume.kt:260-266 | after `shiftChunks` by v chunks, the position moved by v chunk sides reads the id and tile data the unmoved position read |
| VolumeSlots.Regridded | src/main/kotlin/mcvolume/McVolume.kt:275-308 | the new chunk array has one slot per position of the new grid |
| VolumeSlots.RegriddedFit | src/main/kotlin/mcvolume/McVolume.kt:275-308 | every chunk kept by `setLoadedArea` still has 2^(3b) cells |
| VolumeSlots.RegriddedIn | src/main/kotlin/mcvolume/McVolume.kt:275-308 | after `setLoadedArea`, a position inside the new loaded area reads the id and tile data it read before; any other position reads the default id and no tile data |
| VolumeSlots.Cleaned | src/main/kotlin/mcvolume/McVolume.kt:579-588 | cleaning keeps the number of slots |
| VolumeSlots.CleanedUpTo | src/main/kotlin/mcvolume/McVolume.kt:579-588 | the state after k steps of `cleanChunks` has as many slots as before |
| VolumeSlots.CleanedStep | src/main/kotlin/mcvolume/McVolume.kt:579-588 | step k of `cleanChunks` empties slot k exactly when its chunk holds only default ids, and touches no other slot |
| VolumeSlots.CleanedDone | src/main/kotlin/mcvolume/McVolume.kt:579-588 | after a step per slot the array is the cleaned one |
| VolumeSlots.CleanedMeaning | src/main/kotlin/mcvolume/McVolume.kt:579-588 | cleaning leaves no all-default chunk, changes no id anywhere, drops only the tile data of the chunks it removes, and is the identity when no chunk is all default |
| VolumeSlots.GridPoints | src/main/kotlin/mcvolume/IntBoundary.kt:65-72 | the i-th listed grid position is inside the grid and has Y-Z-X index i |
| VolumeSlots.ChunkExtentMeaning | src/main/kotlin/mcvolume/McVolume.kt:590-611 | the fold of `getBuildChunkBounds` over the first k slots is None exactly when none of them is allocated; otherwise its corners bound every allocated slot's position and each of their coordinates is attained by one |
| VolumeSlots.ChunkExtentNone | src/main/kotlin/mcvolume/McVolume.kt:590-611 | the fold is None exactly when the slots seen are all empty |
| VolumeSlots.ChunkExtentBounds | src/main/kotlin/mcvolume/McVolume.kt:590-611 | the fold's corners lie below and above every allocated slot seen |
| VolumeSlots.ChunkExtentAttained | src/main/kotlin/mcvolume/McVolume.kt:590-611 | each coordinate of the fold's corners is that of an allocated slot seen |
| VolumeSlots.AttainedMore | src/main/kotlin/mcvolume/McVolume.kt:590-611 | a corner attained among k slots is attained among k + 1 |
| VolumeSlots.AttainedSelf | src/main/kotlin/mcvolume/McVolume.kt:590-611 | an allocated slot's own position is attained |
| VolumeSlots.AttainedMix | src/main/kotlin/mcvolume/McVolume.kt:590-611 | the componentwise min or max of an attained corner and a new allocated position is attained |
| VolumeSlots.LoadedInsideExtent | src/main/kotlin/mcvolume/McVolume.kt:590-611 | the box from the fold's lower corner to one past its upper corner holds every allocated chunk position |
| VolumeSlots.BuildChunkBoundsMeaning | src/main/kotlin/mcvolume/McVolume.kt:590-611 | `getBuildChunkBounds` is None exactly when no chunk is allocated; otherwise a non-empty box inside the chunk grid that holds every allocated chunk and whose faces each touch one |
| VolumeSlots.BuildChunkBoundsInGrid | src/main/kotlin/mcvolume/McVolume.kt:590-611 | the build chunk bounds are a normal, non-empty box inside the chunk grid |
| VolumeSlots.AttainedInside | src/main/kotlin/mcvolume/McVolume.kt:590-611 | an attained corner lies inside the chunk grid |
| BuildBounds.VoxelIn | src/main/kotlin/mcvolume/McVolume.kt:310-345 | cell j of an allocated chunk is the loaded position chunk origin + local(j) and reads back that cell's id |
| BuildBounds.SolidSplit | src/main/kotlin/mcvolume/McVolume.kt:310-345 | a position holding a non-default id lies in an allocated chunk, at the cell of its offset |
| BuildBounds.SolidInChunk | src/main/kotlin/mcvolume/McVolume.kt:310-345 | an allocated chunk that is not all default holds a non-default position |
| BuildBounds.SolidInArea | src/main/kotlin/mcvolume/McVolume.kt:310-345 | a non-default position lies in the loaded area |
| BuildBounds.NothingSeenYet | src/main/kotlin/mcvolume/McVolume.kt:310-345 | the walk's starting corners IVec3.MAX and IVec3.MIN satisfy its invariant |
| BuildBounds.MinStep | src/main/kotlin/mcvolume/McVolume.kt:310-345 | visiting one more chunk keeps the lower corner below every non-default position seen on the lower faces |
| BuildBounds.MaxStep | src/main/kotlin/mcvolume/McVolume.kt:310-345 | visiting one more chunk keeps the upper corner above every non-default position seen on the upper faces |
| BuildBounds.MergeMinBound | src/main/kotlin/mcvolume/McVolume.kt:328-334 | `minPos.min(...)` is below both its operands |
| BuildBounds.MergeMaxBound | src/main/kotlin/mcvolume/McVolume.kt:335-341 | `maxPos.max(...)` is above both its operands |
| BuildBounds.MergeMinAttained | src/main/kotlin/mcvolume/McVolume.kt:328-334 | the merged lower corner keeps each coordinate attained by a non-default position |
| BuildBounds.MergeMaxAttained | src/main/kotlin/mcvolume/McVolume.kt:335-341 | the merged upper corner keeps each coordinate attained by a non-default position |
| BuildBounds.AxisWitnesses | src/main/kotlin/mcvolume/Chunk.kt:84-105 | the coordinates of a chunk's local min or max corner are coordinates of non-default cells of that chunk, as loaded positions |
| BuildBounds.ChunkOrder | src/main/kotlin/mcvolume/McVolume.kt:310-345 | a cell of a lower chunk lies below every cell of a higher chunk along that axis |
| BuildBounds.BelowViaFace | src/main/kotlin/mcvolume/McVolume.kt:310-345 | a non-default position in an inner chunk lies above one in a chunk of the lower face, so walking the faces suffices for the lower corner |
| BuildBounds.AboveViaFace | src/main/kotlin/mcvolume/McVolume.kt:310-345 | the same for the upper faces and the upper corner |
| BuildBounds.SolidBetweenCorners | src/main/kotlin/mcvolume/McVolume.kt:310-345 | after walking the whole build chunk bounds with no all-default chunk, every non-default position lies between the two corners |
| BuildBounds.WalkResult | src/main/kotlin/mcvolume/McVolume.kt:310-345 | the walk sets both corners, and the box from the lower to one past the upper holds every non-default position while each of its faces touches one: it is the tightest such box |
| BuildBounds.FaceChunks | src/main/kotlin/mcvolume/McVolume.kt:590-611 | each face of the build chunk bounds touches an allocated chunk that is not all default |
| BuildBounds.SlotChunk | src/main/kotlin/mcvolume/McVolume.kt:590-611 | an allocated slot's position lies in the build chunk bounds and holds a non-default position |
| BuildBounds.CornersOfNew | src/main/kotlin/mcvolume/IntBoundary.kt:24-28 | the box from lo to one past hi has corners lo and hi |
| BlockGrids.CoversWithin | src/main/kotlin/mcvolume/McvUtils.kt:169-186 | every slice `distributeRange` produces over [s, e) is a non-empty range inside [s, e) |
| BlockGrids.CoversFind | src/main/kotlin/mcvolume/McvUtils.kt:169-186 | every value of [s, e) falls in one of the slices |
| BlockGrids.ChunkJobs | src/main/kotlin/mcvolume/McVolume.kt:411-430 | one thread gets the whole chunk bounds; zero threads is a division by zero and a negative count gives no jobs; with at least one thread there are at most that many jobs, each a box inside the chunk bounds, and together they hold every chunk position of the bounds |
| BlockGrids.ArrayCopy | src/main/kotlin/mcvolume/McVolume.kt:392 | `System.arraycopy`: the len cells from dstPos take src's cells from srcPos, and every other cell of dst keeps its value |
| BlockGrids.CopiedStart | src/main/kotlin/mcvolume/McVolume.kt:374-375 | the grid filled with the default id agrees with the volume on no block reached yet, and holds the default id everywhere |
| BlockGrids.CopiedRow | src/main/kotlin/mcvolume/McVolume.kt:386-394 | copying one row of an allocated chunk makes the grid hold the volume's ids on that row too |
| BlockGrids.CopiedEmptySlot | src/main/kotlin/mcvolume/McVolume.kt:400 | skipping a null chunk (`?: continue`) is correct: its blocks read as the default id, which the grid already holds |
| BlockGrids.CopyChunkRows | src/main/kotlin/mcvolume/McVolume.kt:379-395 | `fillArrFromChunk` makes the grid hold the volume's id at every block of the chunk inside the grid box, keeping what earlier chunks copied |
| BlockGrids.CopyRow | src/main/kotlin/mcvolume/McVolume.kt:388-392 | one `System.arraycopy` of a row moves the chunk's ids of that row to the grid cells of the same positions |
| BlockGrids.CopiedAll | src/main/kotlin/mcvolume/McVolume.kt:398-413 | once every chunk of the box is done, grid cell `posToYzxIdx(p)` holds the volume's id at p for every p of the box |
| BlockGrids.MaxKeyOf | src/main/kotlin/mcvolume/McVolume.kt:453 | `blockIdMappings.keys.max()`: the greatest key of the mappings |
| BlockGrids.FirstDefaultValue | src/main/kotlin/mcvolume/McVolume.kt:470-472 | as written, the `firstOrNull` scan finds something exactly when some grid id maps to the default volume id, and what it yields is that volume id itself, not the grid id |
| BlockGrids.FirstDefaultIndex | src/main/kotlin/mcvolume/McVolume.kt:470-472 | corrected: found exactly when some grid id maps to the default volume id, and then the least such grid id |
| BlockGrids.CreatesChunkSound | src/main/kotlin/mcvolume/McVolume.kt:495-506 | with the corrected default grid id, a row is skipped only when every block of it would receive the default volume id |
| BlockGrids.CreatesChunkAsWrittenSkipsBlock | src/main/kotlin/mcvolume/McVolume.kt:495-506 | as written, with grid id 0 mapped to volume id 5 and grid id 1 to the default, a row holding grid id 0 is skipped though its block is not the default |
| BlockGrids.CreatesChunkAsWrittenAgrees | src/main/kotlin/mcvolume/McVolume.kt:495-506 | the written and the corrected test agree when grid id 0 maps to the default or no grid id does |
| BlockGrids.FindDefaultIndex | src/main/kotlin/mcvolume/McVolume.kt:469-472 | corrected skip test (the McVolume.kt:469-472 finding): the scan reports a default grid id exactly when one exists, yields the least one, and -1 (with the flag cleared) when none does |
| BlockGrids.RowNeedsChunk | src/main/kotlin/mcvolume/McVolume.kt:495-506 | corrected skip test (the McVolume.kt:469-472 finding): `doCreateChunk` is true exactly when no grid id maps to the default or some cell of the row differs from the default grid id |
| BlockGrids.MapRowInto | src/main/kotlin/mcvolume/McVolume.kt:519-523 | the len cells of the chunk from the row start take the volume ids of the row's grid ids through the id table; no other cell changes |
| BlockGrids.PlacedStart | src/main/kotlin/mcvolume/McVolume.kt:529-543 | before any chunk is filled, the volume holds what it held, with the same tile data |
| BlockGrids.PlacedRowWrite | src/main/kotlin/mcvolume/McVolume.kt:516-523 | writing one row into an allocated chunk places that row and leaves every other block as it was |
| BlockGrids.PlacedRowSkip | src/main/kotlin/mcvolume/McVolume.kt:490-513 | a null chunk left null for a row whose blocks all map to the default still reads as the placed ids |
| BlockGrids.PlacedAll | src/main/kotlin/mcvolume/McVolume.kt:529-543 | once every chunk of the box is done, each position of the box holds the volume id of its grid id and every other position what it held before |
| BlockGrids.PlaceRow | src/main/kotlin/mcvolume/McVolume.kt:486-524 | corrected skip test (the McVolume.kt:469-472 finding): one row of `fillChunkFromArr`: a null chunk is allocated only when the row needs it, an existing chunk is written in place, and the row's positions then hold their placed ids, tile data unchanged |
| BlockGrids.PlaceChunkRows | src/main/kotlin/mcvolume/McVolume.kt:475-527 | corrected skip test (the McVolume.kt:469-472 finding): `fillChunkFromArr`: every position of the chunk inside the box holds its placed id and no other block or tile data changes; the chunk is the one given or a fresh one |
| Volumes.McVolume.Init | src/main/kotlin/mcvolume/McVolume.kt:82-103 | the bare volume: the given chunk bit size and uuid, a fresh unlinked empty palette, no chunks, and every bound the empty box at the origin |
| Volumes.McVolume.GetEnsuredPaletteBlock | src/main/kotlin/mcvolume/McVolume.kt:107-123 | the entry returned has a state equal to bs and this volume's uuid, and is the one the hash palette indexes; the palette is unchanged when such an entry existed, otherwise it grows by exactly that entry under the next id |
| Volumes.McVolume.GetEnsuredPaletteBlockStr | src/main/kotlin/mcvolume/McVolume.kt:129-131 | a malformed string is refused with the palette unchanged; otherwise the parsed state is interned as by `getEnsuredPaletteBlock` |
| Volumes.McVolume.GetPaletteBlock | src/main/kotlin/mcvolume/McVolume.kt:133-135 | an entry is returned exactly when the palette has one with a state equal to bs, and then it is such an entry; the palette never grows |
| Volumes.McVolume.GetPaletteBlockStr | src/main/kotlin/mcvolume/McVolume.kt:137-139 | a malformed string is refused; otherwise an entry is returned exactly when the palette has one with the parsed state |
| Volumes.McVolume.GetDefaultBlock | src/main/kotlin/mcvolume/McVolume.kt:142 | the default block is palette entry 0 |
| Volumes.McVolume.SetBlockState | src/main/kotlin/mcvolume/McVolume.kt:147-149 | the state is interned first, so the palette may grow even when p is outside the loaded area and the write is refused; otherwise p then holds that entry's id, as `WithId` states |
| Volumes.McVolume.SetBlockStateStr | src/main/kotlin/mcvolume/McVolume.kt:156-158 | a malformed string is refused with nothing changed; otherwise exactly the effect of `setBlockState` with the parsed state |
| Volumes.McVolume.SetVolBlockState | src/main/kotlin/mcvolume/McVolume.kt:160-177 | refused outside the loaded area or for an entry of another volume, with nothing changed; otherwise p reads back the entry's id (see VolumeSlots.WithIdEffect), and the bounds and palette stay as they were |
| Volumes.McVolume.WriteIdInto | src/main/kotlin/mcvolume/McVolume.kt:173-176 | writing into an allocated chunk gives the slots `WithId` describes |
| Volumes.McVolume.WriteIdFresh | src/main/kotlin/mcvolume/McVolume.kt:166-172 | a fresh chunk put in p's empty slot for a non-default id gives the slots `WithId` describes |
| Volumes.McVolume.GetVolBlockState | src/main/kotlin/mcvolume/McVolume.kt:205-216 | refused outside the loaded area; otherwise the palette entry of the id stored at p, which is entry 0 for a null chunk |
| Volumes.McVolume.GetBlockState | src/main/kotlin/mcvolume/McVolume.kt:218 | refused outside the loaded area; otherwise the state of the entry of the id at p |
| Volumes.McVolume.GetVolBlockStateSafe | src/main/kotlin/mcvolume/McVolume.kt:224-227 | the default entry outside the loaded area, and what `getVolBlockState` answers inside |
| Volumes.McVolume.GetBlockStateSafe | src/main/kotlin/mcvolume/McVolume.kt:229 | the default state outside the loaded area, and the state of the entry at p inside |
| Volumes.McVolume.SetTileData | src/main/kotlin/mcvolume/McVolume.kt:184-201 | refused outside the loaded area with nothing changed; otherwise p reads back the data (see VolumeSlots.WithTileEffect), and ids, bounds and palette stay as they were |
| Volumes.McVolume.WriteTileInto | src/main/kotlin/mcvolume/McVolume.kt:197-200 | storing into or removing from an allocated chunk gives the slots `WithTile` describes |
| Volumes.McVolume.WriteTileFresh | src/main/kotlin/mcvolume/McVolume.kt:189-196 | storing data through a fresh chunk in p's empty slot gives the slots `WithTile` describes |
| Volumes.McVolume.GetTileData | src/main/kotlin/mcvolume/McVolume.kt:235-246 | refused outside the loaded area; otherwise the tile data at p, none for a null chunk |
| Volumes.McVolume.GetTileDataSafe | src/main/kotlin/mcvolume/McVolume.kt:251-254 | no tile data outside the loaded area, and the data at p inside |
| Volumes.McVolume.ShiftChunks | src/main/kotlin/mcvolume/McVolume.kt:260-266 | the chunk grid moves by shift and the loaded and target areas by shift chunk sides, while the chunk array is untouched (so VolumeSlots.ShiftedIn gives what each position reads) |
| Volumes.McVolume.SetLoadedArea | src/main/kotlin/mcvolume/McVolume.kt:275-308 | the target area becomes the normalised box of the two corners, the chunk grid the chunks covering it, the loaded area that grid scaled up (so it holds the target), and the slots are the old ones regridded (see VolumeSlots.RegriddedIn) |
| Volumes.McVolume.KeptChunks | src/main/kotlin/mcvolume/McVolume.kt:289-301 | the chunks carried over are exactly the regridded slots' allocated ones, well-formed, still owned by the volume and pairwise distinct |
| Volumes.McVolume.Install | src/main/kotlin/mcvolume/McVolume.kt:304-307 | the field updates that finish `setLoadedArea` install the new array, grid, loaded and target areas |
| Volumes.McVolume.MoveChunks | src/main/kotlin/mcvolume/McVolume.kt:289-301 | after the copy loop, each new slot holds the old chunk at its grid position, or null when the old grid did not have it |
| Volumes.McVolume.MoveOne | src/main/kotlin/mcvolume/McVolume.kt:290-299 | one iteration of the copy loop stores old chunk k in its new slot when its position lies in the new grid |
| Volumes.McVolume.CleanChunks | src/main/kotlin/mcvolume/McVolume.kt:579-588 | corrected `iterYzx` guard (the IntBoundary finding): the slots become the cleaned ones: see VolumeSlots.CleanedMeaning |
| Volumes.McVolume.CleanSlot | src/main/kotlin/mcvolume/McVolume.kt:581-587 | one iteration of `cleanChunks` takes the state after idx steps to the state after idx + 1 |
| Volumes.McVolume.DropChunk | src/main/kotlin/mcvolume/McVolume.kt:584-586 | nulling a chunk of default ids empties exactly its slot |
| Volumes.McVolume.GetBuildChunkBounds | src/main/kotlin/mcvolume/McVolume.kt:590-611 | corrected `iterYzx` guard (the IntBoundary finding): the result is the build chunk bounds of the slots, whose meaning VolumeSlots.BuildChunkBoundsMeaning states |
| Volumes.McVolume.ComputeBuildBounds | src/main/kotlin/mcvolume/McVolume.kt:310-345 | corrected `iterYzx` guard (the IntBoundary finding): [0, 1)^3 when no chunk is allocated; otherwise, with no all-default chunk, a box holding every non-default position whose each face touches one: the tightest box around the blocks in use |
| Volumes.McVolume.WalkBorders | src/main/kotlin/mcvolume/McVolume.kt:315-342 | the walk over the build chunk bounds ends with its invariant established for every chunk |
| Volumes.McVolume.WalkBorderChunk | src/main/kotlin/mcvolume/McVolume.kt:317-342 | one iteration of the walk keeps its invariant |
| Volumes.McVolume.BorderChunkExtent | src/main/kotlin/mcvolume/McVolume.kt:318-341 | a chunk contributes a lower corner only on a lower face of the build chunk bounds and when allocated, and then that corner is below all its non-default cells and attained by them; none means all its cells are default; likewise for the upper corner |
| Volumes.McVolume.ExtractBlockGrid | src/main/kotlin/mcvolume/McVolume.kt:354-442 | corrected `iterYzx` guard (the IntBoundary finding): refused for a box outside the loaded area, for fewer than one thread, or for more than Int.MAX_VALUE - 8 cells; otherwise the box's dimensions, a fresh array whose cell `posToYzxIdx(p)` holds the id at p for every p of the box, and the unlinked palette mappings |
| Volumes.McVolume.FillFromChunks | src/main/kotlin/mcvolume/McVolume.kt:398-407 | corrected `iterYzx` guard (the IntBoundary finding): `fillArrFromChunksInChunkBounds` copies every chunk of the job into the grid |
| Volumes.McVolume.FillFromChunk | src/main/kotlin/mcvolume/McVolume.kt:400-405 | one chunk position of the job: a null chunk is skipped and an allocated one copied |
| Volumes.McVolume.BuildVolMap | src/main/kotlin/mcvolume/McVolume.kt:453-461 | the id table has one cell per grid id up to the largest key; cell k holds the palette id of grid id k's state (the default state when unmapped), interned into the palette, which only grows |
| Volumes.McVolume.InternGridId | src/main/kotlin/mcvolume/McVolume.kt:454-460 | interning the state of grid id k keeps the table built so far valid and extends it by that id |
| Volumes.McVolume.PlaceBlockGrid | src/main/kotlin/mcvolume/McVolume.kt:445-570 | corrected skip test and `iterYzx` guard (the McVolume.kt:469-472 and IntBoundary findings): empty mappings fail (`keys.max()`), a largest key below -1 fails (negative array size), zero threads fails after the palette grew; otherwise every position of the grid box holds the palette id of its grid cell's state; no other position and no tile data changes |
| Volumes.McVolume.PlaceWithTable | src/main/kotlin/mcvolume/McVolume.kt:464-569 | corrected skip test (the McVolume.kt:469-472 finding): with the id table built, zero threads divides by zero and changes nothing; otherwise the box holds the placed ids, and nothing else changes |
| Volumes.McVolume.PlaceJobs | src/main/kotlin/mcvolume/McVolume.kt:562-568 | corrected skip test (the McVolume.kt:469-472 finding): jobs that together cover the chunks of the box leave every position of the box holding its placed id and every other position as it was |
| Volumes.McVolume.PlaceChunks | src/main/kotlin/mcvolume/McVolume.kt:529-537 | corrected skip test and `iterYzx` guard (the McVolume.kt:469-472 and IntBoundary findings): `fillChunksInChunksBounds` places every chunk of the job |
| Volumes.McVolume.PlaceChunk | src/main/kotlin/mcvolume/McVolume.kt:531-535 | corrected skip test (the McVolume.kt:469-472 finding): one chunk position of the job is placed |
| Volumes.McVolume.PlaceIntoChunk | src/main/kotlin/mcvolume/McVolume.kt:475-527 | the rows of an allocated chunk are overwritten in place with their placed ids |
| Volumes.McVolume.PlaceIntoEmpty | src/main/kotlin/mcvolume/McVolume.kt:475-527 | corrected skip test (the McVolume.kt:469-472 finding): a null chunk's slot gets a fresh chunk only when some row needs one, and its rows then hold their placed ids |
| Volumes.McVolume.ExpandLoadedArea | src/main/kotlin/mcvolume/McVolume.kt:268-273 | the target area grows by e on every side and the volume is reloaded as `setLoadedArea` does |
| Volumes.NewVolume | src/main/kotlin/mcvolume/McVolume.kt:82-103 | a chunk bit size outside 1..8 and a malformed default string are refused; otherwise a fresh valid volume whose palette is exactly the default entry with id 0, whose target area is the given box, and where every position reads the default id and no tile data |
| Schems.Unsigned16 | src/main/kotlin/mcvolume/io/Schem.kt:108-112 | `getShort(..).toInt() and 0xFFFF`: a value in [0, 65536) congruent to the stored Short modulo 2^16 |
| Schems.SchemSize | src/main/kotlin/mcvolume/io/Schem.kt:208-212 | the schematic's size has each dimension in [0, 65536) |
| Schems.SchemOffset | src/main/kotlin/mcvolume/io/Schem.kt:218-227 | version 3 and a version 2 file without WorldEdit offsets use `Offset` (the origin when absent); in version 2 each present `WEOffsetX/Y/Z` overrides its own axis |
| Schems.SchemBox | src/main/kotlin/mcvolume/io/Schem.kt:124-126 | the loaded box is [offset, offset + size), a normal box whose low corner is the offset and whose dimensions are the size |
| Schems.Unsigned16OfShort | src/main/kotlin/mcvolume/io/Schem.kt:331-333 | a dimension below 65536 written with `toShort()` reads back unchanged through the unsigned read |
| Schems.HeaderRoundTrip | src/main/kotlin/mcvolume/io/Schem.kt:306-333 | for either version, the header exported for build bounds whose dimensions fit 16 bits describes exactly those bounds when read back |
| Schems.PaletteMaxId | src/main/kotlin/mcvolume/io/Schem.kt:240 | the fold `max(m, it)` from 0: at least 0, at least every value of the compound, and either 0 or one of the values |
| Schems.NameOfMeaning | src/main/kotlin/mcvolume/io/Schem.kt:242-243 | after the entries are written in turn, slot i holds the key of the last entry with value i, or the default string when none has value i |
| Schems.FillPaletteStrings | src/main/kotlin/mcvolume/io/Schem.kt:240-243 | the `paletteString` loop gives `paletteMaxId + 1` slots, each the key last written to it or the default string; a negative value is an index error |
| Schems.IndexOfFirst | src/main/kotlin/mcvolume/io/Schem.kt:248 | `indexOfFirst`: -1 exactly when the string is absent, otherwise the least index holding it |
| Schems.DefaultSlot | src/main/kotlin/mcvolume/io/Schem.kt:245-254 | corrected: the palette list has one extra slot exactly when the default string is missing, and the skipped id is a slot of it |
| Schems.Padded | src/main/kotlin/mcvolume/io/Schem.kt:258-259 | the palette list's strings: the named slots unchanged, and the default string in every slot after them |
| Schems.DefaultSlotIsAir | src/main/kotlin/mcvolume/io/Schem.kt:245-259 | with the corrected arithmetic the skipped id is always a default-block slot, so skipping it never drops a block |
| Schems.DefaultSlotAsWrittenSkipsBlock | src/main/kotlin/mcvolume/io/Schem.kt:245-254 | as written, a palette without the default string gets no extra slot and its largest id, a real block kind, is the one skipped |
| Schems.StoneOnlyPaletteSkipsStone | src/main/kotlin/mcvolume/io/Schem.kt:240-254 | the palette `{"minecraft:stone": 0}`: as written the list has 1 slot and id 0, stone, is skipped; corrected it has 2 slots and id 1 is skipped |
| Schems.VarintStream | src/main/kotlin/mcvolume/McvUtils.kt:210-217 | the bytes `pushVarint` appends for a list of ids: at least one byte per id |
| Schems.VarintStreamAppend | src/main/kotlin/mcvolume/McvUtils.kt:210-217 | the stream of a concatenation is the concatenation of the streams |
| Schems.VarintStreamSnoc | src/main/kotlin/mcvolume/McvUtils.kt:210-217 | the stream of the first k + 1 ids is that of the first k followed by id k's varint |
| Schems.VarintStreamAt | src/main/kotlin/mcvolume/McvUtils.kt:210-217 | the stream splits around the varint of any id |
| Schems.CursorIsPointAt | src/main/kotlin/mcvolume/io/Schem.kt:465-474 | the decoder's cursor after k steps (x, then z, then y) is the k-th point of the size box in Y-Z-X order |
| Schems.CursorInBounds | src/main/kotlin/mcvolume/io/Schem.kt:460-474 | cursor k plus the offset is the k-th point of the bounds in `iterYzx` order, so the k-th varint lands on the position the encoder read it from |
| Schems.WalkStream | src/main/kotlin/mcvolume/io/Schem.kt:448-475 | decoding the stream of ids from the k-th varint on performs exactly the writes of ids k onward and succeeds |
| Schems.StreamReadAt | src/main/kotlin/mcvolume/io/Schem.kt:449-450 | reading a varint at the offset of id k yields id k and the offset of id k + 1 |
| Schems.WalkStep | src/main/kotlin/mcvolume/io/Schem.kt:448-475 | one step of the decoder reads one varint; the skipped id writes nothing; an id outside the palette list, a position outside the loaded area or an entry of another volume throws; any other id is written at the cursor plus the offset before the cursor steps |
| Schems.Applied | src/main/kotlin/mcvolume/io/Schem.kt:453-463 | applying a list of `setVolBlockState` writes keeps the slot count and chunk sizes |
| Schems.AppliedSnoc | src/main/kotlin/mcvolume/io/Schem.kt:453-463 | applying one more write is `setVolBlockState` of it after the others |
| Schems.AppliedEffect | src/main/kotlin/mcvolume/io/Schem.kt:453-463 | after the writes, each position reads the id last written to it, or what it read before |
| Schems.LastWriteAt | src/main/kotlin/mcvolume/io/Schem.kt:453-474 | the last write the stream makes at the j-th point of the bounds is id j's entry, unless id j is the skipped one |
| Schems.WritesInBounds | src/main/kotlin/mcvolume/io/Schem.kt:460-474 | the stream writes nothing outside the bounds |
| Schems.WritesLoaded | src/main/kotlin/mcvolume/io/Schem.kt:460-474 | every write of the stream lands in the loaded area when the bounds lie inside it |
| Schems.StreamIdAt | src/main/kotlin/mcvolume/io/Schem.kt:448-475 | after loading, a point of the bounds reads the palette id of its varint unless that is the skipped id, and any other position reads what it read before |
| Schems.BlockDataRoundTrip | src/main/kotlin/mcvolume/io/Schem.kt:434-506 | decoding the varint stream the encoder writes for the bounds succeeds, and leaves every point of the bounds holding the id its varint indexes (the skipped id leaves it as it was) and every other position as it was |
| Schems.LoadVarintBlockStates | src/main/kotlin/mcvolume/io/Schem.kt:434-478 | the loader's loop ends exactly as the decoder walk over the data says: its outcome, and the volume after the walk's writes, with bounds and palette untouched |
| Schems.LoadStep | src/main/kotlin/mcvolume/io/Schem.kt:449-474 | one iteration of the loop performs the walk's next write and cursor step |
| Schems.Lookups | src/main/kotlin/mcvolume/io/Schem.kt:498-500 | one `getVolBlockState` answer per point of the bounds, in `iterYzx` order |
| Schems.EmitMeaning | src/main/kotlin/mcvolume/io/Schem.kt:498-502 | the encoder succeeds exactly when every lookup does, and then its bytes are the varint stream of the palette ids, one per point |
| Schems.EmitErrPrefix | src/main/kotlin/mcvolume/io/Schem.kt:498-502 | the first failed lookup is the exception the whole encoding throws |
| Schems.SchemBlockData | src/main/kotlin/mcvolume/io/Schem.kt:495-506 | `getSchemBlockStateByteArrayTag` yields exactly the encoding of the lookups over the build bounds |
| Schems.LoaderSlotsStep | src/main/kotlin/mcvolume/io/Schem.kt:165-169 | storing one more interned entry keeps the palette list's meaning |
| Schems.LoaderPalette | src/main/kotlin/mcvolume/io/Schem.kt:258-264 | the palette list is built exactly when every key parses and every value is a slot of it; then it has the requested length, each named slot holds the interned entry of its key (the last one written) and every other slot the default entry, and the volume's palette only grows |
| Schems.KeysCount | src/main/kotlin/mcvolume/io/Schem.kt:484 | mappings over ids 0 to n - 1 have n keys |
| Schems.SchemPaletteLoads | src/main/kotlin/mcvolume/io/Schem.kt:480-493 | `PaletteMax` is the palette size, a loader reading the exported compound rebuilds the state strings of ids 0 to n - 1, and when id 0 is the default block both arithmetics skip id 0 |
| Worlds.ChunkBlockBoundsShape | src/main/kotlin/mcvolume/io/World.kt:57-60 | a chunk's block box runs from `chunkPos shl b` to `(chunkPos + 1) shl b` and is non-empty on X and Z |
| Worlds.AxisInOneRegion | src/main/kotlin/mcvolume/io/World.kt:62-65 | along one axis, the blocks of a chunk of at most 2^9 blocks all fall in one region, and the shifted end is that region or the next |
| Worlds.ChunkInOneRegion | src/main/kotlin/mcvolume/io/World.kt:62-65 | for bit sizes 1 to 8, the region box of a chunk starts at the region of its low corner, is at most one region wide on X and Z, and every block of the chunk is in that region |
| Worlds.RegionsOfChunk | src/main/kotlin/mcvolume/io/World.kt:50-72 | with the iterator as written, whose guard only tests Y, the region loop adds each chunk to exactly one region: the one holding all its blocks |
| Worlds.CoveringRange | src/main/kotlin/mcvolume/io/World.kt:168-171 | corrected: the 16-block slices s with s in the range are exactly those meeting the block range |
| Worlds.ShiftedRangeOfWideChunk | src/main/kotlin/mcvolume/io/World.kt:168-171 | for chunks of 16 blocks or more, `a shr 4 until b shr 4` is the covering range |
| Worlds.SmallChunkInNoSection | src/main/kotlin/mcvolume/io/World.kt:168-171 | as written, an 8-block chunk at the origin meets section 0, yet `0 shr 4 until 8 shr 4` is empty, so the chunk is exported to no section |
| Worlds.SectionsOfChunk | src/main/kotlin/mcvolume/io/World.kt:163-177 | corrected: the sections a chunk is added to are exactly those meeting its blocks, in increasing order |
| Worlds.ClampedIntoOwnRegion | src/main/kotlin/mcvolume/io/World.kt:137 | on X and Z, a chunk clamped into its own region's blocks is the whole chunk |
| Worlds.ColumnsIn | src/main/kotlin/mcvolume/io/World.kt:138-151 | corrected column range (the World.kt:138-151 finding): the column loops over a block box visit exactly the columns (y = 0) whose 16-block footprint meets the box on X and on Z |
| Worlds.ColumnsOfChunk | src/main/kotlin/mcvolume/io/World.kt:131-152 | corrected: the columns a chunk is added to are exactly those whose 16 x 16 footprint meets the chunk |
| Worlds.SectionIdx | src/main/kotlin/mcvolume/io/World.kt:236-238 | `((p and 15).y shl 8) + ((p and 15).z shl 4) + (p and 15).x` is a cell of the 4096-cell section |
| Worlds.SectionIdxIsLocalIdx | src/main/kotlin/mcvolume/io/World.kt:236-238 | the section index is the Y-Z-X index of the position's offset in its 16-block section, as for a chunk of bit size 4 |
| Worlds.SectionIdxInjective | src/main/kotlin/mcvolume/io/World.kt:236-238 | two distinct positions of one section have distinct section indices |
| Worlds.Section.constructor | src/main/kotlin/mcvolume/io/World.kt:184-188 | a new section: 4096 zero ids, no mapping for any palette id, an empty section palette |
| Worlds.Section.Place | src/main/kotlin/mcvolume/io/World.kt:221-238 | a volume id already mapped leaves the section palette as it is; an unmapped one has its entry appended once, under the next section id; the position's cell then decodes to the volume id and no other cell changes |
| Worlds.SectionPaletteDistinct | src/main/kotlin/mcvolume/io/World.kt:221-232 | the section palette holds each volume id at most once |
| Worlds.PlaceAt | src/main/kotlin/mcvolume/io/World.kt:211-238 | one block of the scan: the cell is filled with its decoding, the section palette only grows and cells outside the scanned part keep their ids |
| Worlds.PlaceRow | src/main/kotlin/mcvolume/io/World.kt:211-238 | the X loop fills one row of the part the chunk covers |
| Worlds.PlaceLayer | src/main/kotlin/mcvolume/io/World.kt:211-238 | the Z and X loops fill one layer |
| Worlds.PlaceChunk | src/main/kotlin/mcvolume/io/World.kt:197-242 | after the loops over the part of a section one chunk covers, each of its positions decodes through the section palette to the chunk's volume id there, every other cell of the section is untouched, and the section palette only grows |
| Worlds.CollectAll | src/main/kotlin/mcvolume/io/World.kt:104-110 | the pairs are collected exactly when every piece parses, one pair per piece in order |
| Worlds.PropPairOfPropStr | src/main/kotlin/mcvolume/io/World.kt:104-109 | a printed `name=value` without separators or surrounding blanks splits back into its name and value |
| Worlds.PropPairsOfPropStrs | src/main/kotlin/mcvolume/io/World.kt:104-110 | the printed properties of a state parse back into their pairs, in order |
| Worlds.PaletteEntryOfStateStr | src/main/kotlin/mcvolume/io/World.kt:81-113 | the palette entry of a well-formed state's string has its full name and its properties as name/value pairs, in order: the exported palette describes the volume's states |
| Worlds.SectorCount | src/main/kotlin/mcvolume/io/World.kt:306 | `((max(len, 1) - 1) / 4096) + 1`: the fewest whole sectors, at least one, that hold len bytes |
| Worlds.HeaderOffset | src/main/kotlin/mcvolume/io/World.kt:307 | a location-table entry is a 4-byte-aligned slot inside the first sector |
| Worlds.HeaderOffsetsDistinct | src/main/kotlin/mcvolume/io/World.kt:307 | distinct column chunks of one region have distinct location entries |
| Worlds.ColumnBinary | src/main/kotlin/mcvolume/io/World.kt:300-303 | the column chunk is the compressed NBT's length plus one as a big-endian Int, the compression type 2, then the compressed bytes |
| Worlds.LowBeBytes | src/main/kotlin/mcvolume/McvUtils.kt:34-38 | the last three bytes of `intToBEBytes(v)` encode v modulo 2^24 |
| Worlds.WriteHeaderBytes | src/main/kotlin/mcvolume/io/World.kt:312-319 | the header loop overwrites exactly the bytes from the entry's offset on |
| Worlds.PadToSectors | src/main/kotlin/mcvolume/io/World.kt:322-325 | the padding loop appends zeros up to exactly the sector count's whole sectors |
| Worlds.AddColumn | src/main/kotlin/mcvolume/io/World.kt:305-326 | the column's location entry holds the sector the region file has reached (three big-endian bytes) and the sector count; the column's bytes follow at that sector, zero-padded to whole sectors; nothing else in the region changes |
| Worlds.LocatedKept | src/main/kotlin/mcvolume/io/World.kt:305-326 | adding another column, with another entry slot, keeps an earlier column located |
| Worlds.WriteRegion | src/main/kotlin/mcvolume/io/World.kt:120-327 | the region file is whole sectors, starts with two header sectors, and each column chunk's entry points at a sector holding its framed bytes |
| Worlds.ColumnTagsAsWritten | src/main/kotlin/mcvolume/io/World.kt:285-287 | as written, the column tags have an `xPos` and no `zPos` |
| Worlds.ColumnTagsAsWrittenLoseX | src/main/kotlin/mcvolume/io/World.kt:285-286 | for column (1, 0, 2), `xPos` ends up as 2 (the z coordinate) and `zPos` is missing |
| Worlds.ColumnTags | src/main/kotlin/mcvolume/io/World.kt:281-287 | corrected: `xPos` and `zPos` hold the column's x and z, `yPos` the lowest section -4 and `DataVersion` 3578 |
| Quads.IdxInjective | src/main/kotlin/mcvolume/io/Quads.kt:286-288 | two distinct cells of a plane never share a flat index, so writing one cell leaves the others alone |
| Quads.WriteCell | src/main/kotlin/mcvolume/io/Quads.kt:286-288 | writing a value into one cell of a plane changes that cell of the plane and no other cell, inside or outside the plane |
| Quads.ExpandX | src/main/kotlin/mcvolume/io/Quads.kt:296-304 | the quad grows right over cells holding its id; with greedy meshing it stops only at the plane's edge or at a cell of another id, without it it is one cell wide |
| Quads.RowHolds | src/main/kotlin/mcvolume/io/Quads.kt:312-321 | the row scan by flat index answers true exactly when every cell of the row under the quad holds the quad's id |
| Quads.ExpandY | src/main/kotlin/mcvolume/io/Quads.kt:306-329 | the quad grows down over whole rows of its id; with greedy meshing it stops at the plane's edge or at a row holding another id, without it it is one row high |
| Quads.ClearRow | src/main/kotlin/mcvolume/io/Quads.kt:332-334 | one row of a finished quad is set to air; no other cell changes |
| Quads.ClearQuad | src/main/kotlin/mcvolume/io/Quads.kt:331-334 | the cells of a finished quad are set to air; no other cell changes |
| Quads.MeshedSnoc | src/main/kotlin/mcvolume/io/Quads.kt:290-334 | cutting a quad whose cells all hold its id, then clearing it, keeps the mesh invariant: the quads come from the original plane, cover no cell twice, and covered cells are air |
| Quads.MeshCell | src/main/kotlin/mcvolume/io/Quads.kt:290-334 | one cell of the scan: an air cell starts no quad; any other cell starts a quad at that cell, one cell in size without greedy meshing; the mesh invariant holds and every cell scanned so far is air |
| Quads.MeshRow | src/main/kotlin/mcvolume/io/Quads.kt:284-363 | one row of the scan keeps the mesh invariant, leaves the row all air and, without greedy meshing, cuts only one-cell quads |
| Quads.MeshPlane | src/main/kotlin/mcvolume/io/Quads.kt:282-363 | the greedy mesh of one plane: every quad lies in the plane, is not air and held its id on every cell; every non-air cell is covered by exactly one quad and air cells by none; afterwards the plane is all air and nothing outside it changed; without greedy meshing every quad is one cell |
| Quads.Normal | src/main/kotlin/mcvolume/io/Quads.kt:138-145 | the six normals in order +X, -X, +Y, -Y, +Z, -Z: normal n is 1 or -1 on axis n / 2 and 0 elsewhere |
| Quads.PlaneAxes | src/main/kotlin/mcvolume/io/Quads.kt:148-159 | for each axis, the entry of `coordIndexesPerAxis` holds the axis, then the other two axes, the lower one last |
| Quads.CoordIndexes | src/main/kotlin/mcvolume/io/Quads.kt:149-159 | the loop that builds `coordIndexesPerAxis` computes exactly that triple |
| Quads.PlaneLocalRoundTrip | src/main/kotlin/mcvolume/io/Quads.kt:341-351 | placing a block's face in plane coordinates and `planeCoordsToLocalChunkCoords` are inverse orderings of the same position |
| Quads.PlaneArrIdx | src/main/kotlin/mcvolume/io/Quads.kt:256-260 | `planeIdx * yLen * xLen + yInPlane * xLen + xInPlane` is a cell of the plane array for every cell of the chunk |
| Quads.PlaneArrIdxInjective | src/main/kotlin/mcvolume/io/Quads.kt:256-260 | distinct plane cells have distinct indices in the plane array |
| Quads.PopulatedStep | src/main/kotlin/mcvolume/io/Quads.kt:227-262 | a block writes its face only into its own plane cell, which was still air |
| Quads.PopulateBlock | src/main/kotlin/mcvolume/io/Quads.kt:228-262 | one block of the chunk: a non-air block records its id in its plane cell when its neighbour along the normal is outside the chunk or has alpha below 255; the loop invariant advances by one block |
| Quads.PopulatePlanes | src/main/kotlin/mcvolume/io/Quads.kt:223-263 | after the population loop, which starts from all-air planes, each plane cell holds the face of the block behind it: the block's id when it is not air and its neighbour along the normal is outside the chunk or transparent, air otherwise |
| Quads.ColorTable | src/main/kotlin/mcvolume/io/Quads.kt:112-128 | one colour per palette entry, in palette order: the air entry gets (0, 0, 0, 0), a state the colour map names gets its colour, any other gets (0, 0, 0, 255) |
| Quads.NeighbourColourDecides | src/main/kotlin/mcvolume/io/Quads.kt:232-244 | a face against an air neighbour inside the chunk is always recorded, and one against a neighbour of unknown colour never is |
| Quads.SerialChunk.constructor | src/main/kotlin/mcvolume/io/Quads.kt:22-31 | a new serial chunk holds its position and bit counts and three empty lists |
| Quads.SerialChunk.AddQuad | src/main/kotlin/mcvolume/io/Quads.kt:35-39 | `addQuad` appends one entry to each of the three lists, so they stay the same length, and changes nothing else |
| Quads.QuadOnFace | src/main/kotlin/mcvolume/io/Quads.kt:341-356 | a quad's two corners lie on the face it shows, at the near side of its depth for a negative normal and the far side for a positive one, and span exactly the quad's cells on the plane's two axes |
| Quads.EmitQuads | src/main/kotlin/mcvolume/io/Quads.kt:340-362 | each quad of one depth is handed to the serial chunk, in order, with its corners, its block id as colour index and the normal's index |
| Quads.MeshDepth | src/main/kotlin/mcvolume/io/Quads.kt:277-364 | meshing the plane at one depth extends the invariant: the earlier depths stay meshed and this one is now meshed and all air |
| Quads.EmitDepth | src/main/kotlin/mcvolume/io/Quads.kt:340-362 | handing one depth's quads to the serial chunk extends the emitted corners and colour indices by that depth's quads |
| Quads.MeshNormal | src/main/kotlin/mcvolume/io/Quads.kt:271-365 | the loop over depths: afterwards the planes are all air, each plane cell that held a face is covered by exactly one quad of its depth and air cells by none, each quad held its id on every cell, and the serial chunk received every quad, depth by depth, with this normal |
| Quads.FillAir | src/main/kotlin/mcvolume/io/Quads.kt:223 | `fill(air)` sets every cell of the planes to air |
| Quads.QuadIdsAreFaces | src/main/kotlin/mcvolume/io/Quads.kt:290-361 | a quad cut from the recorded faces carries the face of each of its cells as its id |
| Quads.MeshChunkNormal | src/main/kotlin/mcvolume/io/Quads.kt:216-365 | one chunk and one normal: every visible face of the chunk along the normal is covered by exactly one quad, whose id is that face's block, hidden faces by none, and the planes are left all air for the next chunk |
| LegacyVolumes.IndexOfFirst | src/main/kotlin/me/sloimay/mcvolume/mcvolume.kt:44 | `indexOfFirst` returns -1 exactly when no entry prints as the key, and otherwise the first entry that does |
| LegacyVolumes.EntryAt | src/main/kotlin/me/sloimay/mcvolume/mcvolume.kt:106-109 | `volBlockPalette[id]` succeeds exactly for an id inside the palette, and yields that entry |
| LegacyVolumes.ColonInStateStr | src/main/kotlin/me/sloimay/mcvolume/mcvolume.kt:44 | every printed state contains the `:` between namespace and name |
| LegacyVolumes.RawKeyNeverFound | src/main/kotlin/me/sloimay/mcvolume/mcvolume.kt:44-46 | a string without `:` never matches any palette entry, so the lookup always falls through to `addPaletteBlock` |
| LegacyVolumes.AsWrittenLookupDuplicates | src/main/kotlin/me/sloimay/mcvolume/mcvolume.kt:43-58 | as written, looking up a namespace-less string such as `stone` twice appends two entries for the same state: the palette then holds duplicates |
| LegacyVolumes.InternedDistinct | src/main/kotlin/me/sloimay/mcvolume/mcvolume.kt:43-58 | corrected: interning keeps the palette's states distinct, and interning the same state again changes nothing |
| LegacyVolumes.CanonicalLookupDistinct | src/main/kotlin/me/sloimay/mcvolume/mcvolume.kt:43-58 | corrected: the lookup that parses first keeps the palette's states distinct and is idempotent |
| LegacyVolumes.CanonicalLookupAgrees | src/main/kotlin/me/sloimay/mcvolume/mcvolume.kt:43-58 | on a string that is already its state's printed form, the corrected lookup and the lookup as written do the same |
| LegacyVolumes.CanonicalLookupOfState | src/main/kotlin/me/sloimay/mcvolume/mcvolume.kt:38-41 | for a well-formed state, parsing its printed form gives the state back and the two lookups agree |
| LegacyVolumes.DenseAppend | src/main/kotlin/me/sloimay/mcvolume/mcvolume.kt:54-57 | appending under id = size keeps entry i at id i |
| LegacyVolumes.LegacyVolume.Init | src/main/kotlin/me/sloimay/mcvolume/mcvolume.kt:14-21 | the field initialisers: no chunk slots, an empty palette, every bound the empty box at the origin |
| LegacyVolumes.LegacyVolume.AddPaletteBlock | src/main/kotlin/me/sloimay/mcvolume/mcvolume.kt:54-58 | a malformed string is refused with the parse error and the palette unchanged; otherwise the parsed state is appended under id = old size, and that entry is returned |
| LegacyVolumes.LegacyVolume.GetPaletteBlockStr | src/main/kotlin/me/sloimay/mcvolume/mcvolume.kt:43-50 | as written: the first entry whose printed state equals the raw string is returned and the palette is unchanged; when none does the string is parsed and appended; a string without `:` always grows the palette by one |
| LegacyVolumes.LegacyVolume.GetPaletteBlockCanonical | src/main/kotlin/me/sloimay/mcvolume/mcvolume.kt:43-50 | corrected: the string is parsed first; a malformed string is an error, otherwise the returned entry is in the palette and prints like the parsed state, and the palette keeps distinct states |
| LegacyVolumes.LegacyVolume.InternState | src/main/kotlin/me/sloimay/mcvolume/mcvolume.kt:43-58 | the returned entry is in the palette and prints like the state; the palette grows only when no entry did, and distinct states stay distinct |
| LegacyVolumes.LegacyVolume.GetPaletteBlock | src/main/kotlin/me/sloimay/mcvolume/mcvolume.kt:38-41 | for a well-formed state, the lookup by its printed form returns an entry of the palette printing like it, as the lookup by string does |
| LegacyVolumes.LegacyVolume.GetDefaultBlock | src/main/kotlin/me/sloimay/mcvolume/mcvolume.kt:52 | the default block is palette entry 0, with the default id |
| LegacyVolumes.LegacyVolume.SetBlock | src/main/kotlin/me/sloimay/mcvolume/mcvolume.kt:62-78 | outside the loaded area the call fails and nothing changes; inside, the id at that position becomes the entry's id and every other position, bound and the palette keep theirs |
| LegacyVolumes.LegacyVolume.WriteIdInto | src/main/kotlin/me/sloimay/mcvolume/mcvolume.kt:75-76 | writing into an allocated chunk sets the id at p and nothing else |
| LegacyVolumes.LegacyVolume.WriteIdFresh | src/main/kotlin/me/sloimay/mcvolume/mcvolume.kt:67-73 | a non-default id at p of an empty slot allocates a chunk holding that id at p and the default elsewhere |
| LegacyVolumes.LegacyVolume.GetBlock | src/main/kotlin/me/sloimay/mcvolume/mcvolume.kt:100-111 | outside the loaded area the call fails; inside, the palette entry of the id at the position (the default for an empty slot) |
| LegacyVolumes.LegacyVolume.SetTileData | src/main/kotlin/me/sloimay/mcvolume/mcvolume.kt:80-96 | outside the loaded area the call fails and nothing changes; inside, the tile data at the position becomes the given data, or is removed, and nothing else changes |
| LegacyVolumes.LegacyVolume.WriteTileInto | src/main/kotlin/me/sloimay/mcvolume/mcvolume.kt:93-94 | storing into an allocated chunk sets the data at p and nothing else |
| LegacyVolumes.LegacyVolume.WriteTileFresh | src/main/kotlin/me/sloimay/mcvolume/mcvolume.kt:85-91 | data at p of an empty slot allocates a chunk holding the data at p, and default ids and no data elsewhere |
| LegacyVolumes.LegacyVolume.GetTileData | src/main/kotlin/me/sloimay/mcvolume/mcvolume.kt:113-124 | outside the loaded area the call fails; inside, the data at the position (none for an empty slot) |
| LegacyVolumes.LegacyVolume.SetLoadedArea | src/main/kotlin/me/sloimay/mcvolume/mcvolume.kt:135-166 | the wanted area becomes [min, max); the chunk grid is the one covering it, the loaded blocks are that grid scaled, and they contain the wanted area; each chunk of the old grid that lies in the new one is kept at its position and the others are dropped |
| LegacyVolumes.LegacyVolume.KeptChunks | src/main/kotlin/me/sloimay/mcvolume/mcvolume.kt:147-159 | the chunks the copy loop keeps are well-formed, owned by the volume, distinct, and mirror the regridded slots |
| LegacyVolumes.LegacyVolume.Install | src/main/kotlin/me/sloimay/mcvolume/mcvolume.kt:161-165 | the four field updates install the new grid, bounds and chunks and keep the invariant |
| LegacyVolumes.LegacyVolume.MoveChunks | src/main/kotlin/me/sloimay/mcvolume/mcvolume.kt:147-159 | after the copy loop each position of the new grid holds the old chunk at that chunk position, or null |
| LegacyVolumes.LegacyVolume.MoveOne | src/main/kotlin/me/sloimay/mcvolume/mcvolume.kt:149-157 | one step of the copy loop moves the old chunk at c to its index in the new grid when the new grid holds c |
| LegacyVolumes.LegacyVolume.ExpandLoadedArea | src/main/kotlin/me/sloimay/mcvolume/mcvolume.kt:128-133 | the wanted area grows by the expansion on every side, and the grid and chunks follow as for `setLoadedArea` |
| LegacyVolumes.LegacyVolume.CleanChunks | src/main/kotlin/me/sloimay/mcvolume/mcvolume.kt:169-178 | corrected `iterYzx` guard (the IntBoundary finding): every allocated chunk whose blocks are all the default id is dropped; the other slots, and so every id, are unchanged |
| LegacyVolumes.LegacyVolume.CleanSlot | src/main/kotlin/me/sloimay/mcvolume/mcvolume.kt:170-177 | one step of `cleanChunks` drops the chunk in its slot exactly when it holds only default ids |
| LegacyVolumes.LegacyVolume.DropChunk | src/main/kotlin/me/sloimay/mcvolume/mcvolume.kt:175 | emptying a slot whose chunk holds only default ids changes no slot but that one |
| LegacyVolumes.LegacyVolume.GetBuildChunkBounds | src/main/kotlin/me/sloimay/mcvolume/mcvolume.kt:221-242 | corrected `iterYzx` guard (the IntBoundary finding): none when no chunk is allocated; otherwise the least box of chunk positions holding every allocated chunk |
| LegacyVolumes.LegacyVolume.GetBuildBounds | src/main/kotlin/me/sloimay/mcvolume/mcvolume.kt:180-219 | corrected `iterYzx` guard (the IntBoundary finding): [0, 1)^3 when no chunk is allocated; otherwise, when no allocated chunk is idle and the loaded bounds fit in an Int, a box holding every non-default block whose lower corner and upper corner less one are reached by non-default blocks |
| LegacyVolumes.LegacyVolume.WalkBorders | src/main/kotlin/me/sloimay/mcvolume/mcvolume.kt:188-216 | the walk over the build chunk bounds folds each border chunk's least and greatest non-default cell into the running minimum and maximum |
| LegacyVolumes.LegacyVolume.WalkBorderChunk | src/main/kotlin/me/sloimay/mcvolume/mcvolume.kt:190-215 | one step of the walk merges the contribution of one chunk of the build chunk bounds |
| LegacyVolumes.LegacyVolume.BorderChunkExtent | src/main/kotlin/me/sloimay/mcvolume/mcvolume.kt:191-215 | a chunk on the min border contributes its least non-default cell, on each axis attained and below all its non-default cells, or nothing when all its cells are default; the max border likewise with the greatest |
| LegacyVolumes.NewLegacyVolume | src/main/kotlin/me/sloimay/mcvolume/mcvolume.kt:25-35 | a malformed default string is refused; otherwise the palette is exactly the default block under id 0, the wanted area is [min, max) inside the loaded area, and every position holds the default block and no tile data |

## Left out

- Threads: `extractBlockGrid`, `placeBlockGrid` and the quad export split their work with `distributeRange` and run it on threads. The model runs the same jobs one after another, so interleavings are not modelled.
- File and stream I/O, gzip and zlib compression, timing and `println` are left out. The codecs work on byte sequences. The compressed NBT of a World column is a parameter.
- The NBT tree (`CompoundTag` and its friends) is opaque. Tile data is a type parameter `T`. A compound that sees the same key twice keeps the last value, so the model's maps do the same.
- 32-bit `Int` overflow in positions, sizes and indices is not modelled; integers are unbounded. Where a width matters it is written out: 16-bit `Short` ids, 64-bit longs, 32-bit varints, the 24-bit sector offset and the byte casts.
- `McVolume` dimensions are not wrapped: a loaded area whose block count overflows an `Int` is not modelled.
- Worlds.Section.Place: the running section id is unbounded. Its `Short` wrap would need more than 32767 distinct states in one 4096-block section, which cannot happen.
- `McvUtils.getBitCount` is used as a plain function (the bit length of a non-negative Int). The World section packing (`makePackedLongArrLF` with `bitLength`), the biomes, the sky light and the `Y` byte of a section are not modelled. The block ids they encode are.
- `blockStateCache` (`strToBsCached`) is a cache of `BlockState.fromStr`. It is modelled as `FromStr` itself.
- `McVersion` and the abstract `BlockPalette.kt` are not part of this model. Both palettes are modelled with the operations the abstract class declares.
- The legacy `mutblockstate.kt`, `io/schem.kt`, `Chunk`, `IntBoundary` and `BlockState` of the `me.sloimay` package are not part of this model. The legacy volume reuses the current chunk, boundary and block-state models, which those files duplicate. The legacy `io/schem.kt` repeats `Schem.kt:434-478`.
- `CHUNK_BIT_SIZE` is a parameter b from 1 to 8 wherever a global constant is used (World, Quads, the legacy volume).
- Exceptions become `Result`/`Outcome` values with an error kind. Error messages are not modelled.
- `VolBlockState.eq` compares palette ids only, and the legacy `VolBlock.eq` does the same. No modelled operation calls either, so the model compares palette ids directly where the source does. `IntBoundary.eq` is Dafny's datatype equality.
- The `iter()` iterators of the palettes and `IntBoundary.iterYzx` are modelled by the sequences they yield. `Bounds.YzxIter` is the as-written iterator.
- Packing.MakePackedLongArrHF: requires bitCount >= 0. Every caller passes a `getBitCount` result or a constant, and those are never negative.
- Volumes.McVolume.PlaceBlockGrid: requires that the grid lies inside the loaded area and that every grid id has a mapping. The source checks neither: it throws part-way through a write, or indexes outside its arrays. These two requirements apply only when there is at least one mapping and at least one thread. With no mappings the source fails in `keys.max()`, and with zero threads it fails dividing the work; the model fails in both cases too.
- Schems.SchemBlockData: requires positive X and Z dimensions. It is called with the build bounds, whose dimensions are always positive, so no call the source makes is excluded. On a box flat along X or Z the as-written `iterYzx` would yield a point outside the box (the IntBoundary finding).
- Schematic block entities (`getSchem2/3BlockEntitiesObject`, `tileDataToSchem*`), the `fromSchem2`/`fromSchem3` file reading, the export file writes and the schematic metadata are not modelled. The palette, offset, size and block-data logic they use is.
- `exportToMcv` file write and timing, and the gzip layer of `fromMcv` are not modelled. `populateFromDeserializedVbsArr` is folded into `McvCodec.DecBlockPalette`.
- Quads: the export loop over chunks and normals is `Quads.MeshChunkNormal`, one chunk and one normal at a time. `SerialChunk.compileToBuf` (the quad file's packed-long layout) and the file header are not modelled. Colours are byte sequences read unsigned. `Quads.BlockAt` and `Quads.Alpha` are total, and their fallbacks are never reached from a valid chunk. Each chunk's planes are cubic (2^b on every axis), as the source's `chunkDims` are. The running quad count is not modelled.
- Worlds.ColumnsOfChunk: requires the region to be the chunk's own region, which is how the region loop calls it. The hash maps of regions, columns and sections are iterated in an unspecified order; the model uses the order of its sequences, and the file layout only depends on it through sector placement.
- `IntBoundary` comes from an external library in `McVolume.kt`. The local `IntBoundary.kt` is its definition here, with `shift` and `fullyInside` added in the same style.
- `Mcv.kt`, `Schem.kt`, `Quads.kt` and `World.kt` call a few APIs that do not match `McVolume.kt`: `wantedBound`, `getBuildBounds`, a global `CHUNK_BIT_SIZE` and `VolBlockState.newUnlinked`. They are modelled with the `McVolume.kt` meaning: the target bounds, `computeBuildBounds`, the volume's bit size and an unowned entry.
- Region binning in `World.kt` (lines 50-73) builds a region box that is empty along X and Z. It still visits one region because of the `iterYzx` guard quirk (the second finding below). The model runs that loop with the as-written iterator, and so keeps the source's behaviour.
- MutBlockStates.MutBlockState.SetProp: the overwrite changes only this object's properties. In the source, `toMutable` and `toImmutable` copy the list with `toMutableList()`, which shares the `PropEntry` objects, and `setProp` assigns `prop.value` in place. So an overwrite also changes the value that `getProp` reads on the `BlockState` the mutable one came from, and on every state `toImmutable` returned earlier, while their `stateStr` keeps the old value. The model's copies are independent values, so this aliasing is not modelled.
- MutBlockStates.ToMutable: the copy's properties are a value. The source shares the `PropEntry` objects with the original (see SetProp above).
- MutBlockStates.MutBlockState.ToImmutable: the copy's properties are a value. The source shares the `PropEntry` objects with the mutable state, so later `setProp` overwrites change the copy's `getProp` (see SetProp above).
- BlockStates.EqualIffSame: the source's `equals` also compares `javaClass`, so a `MutBlockState` never equals a `BlockState` with the same string, and a hashed palette lookup keyed by one misses the other. The model compares state strings only; no modelled operation mixes the two classes.
- Strs.LexLeTotal: names are compared by Unicode scalar values, while Kotlin compares UTF-16 code units; the two orders differ only for names holding characters above U+FFFF. The same holds for Strs.LexLeAntisymmetric and Strs.LexLeTransitive.
- `GrowableByteBuf.getFloat`, `getDouble`, `putFloat` and `putDouble` are not modelled: floating point is out of scope, and no modelled codec calls them.
- Volumes.McVolume.CleanChunks: walks the chunk grid with the corrected `iterYzx` guard. On a grid with height but no width along X or Z (for example a volume made over `(0,0,0)` to `(0,10,10)`), the source yields the grid's corner and reads `chunks[0]` of an empty array, which throws; the model returns with the slots unchanged. Bounds.FirstYieldOfFlatBox states the first yield.
- Volumes.McVolume.GetBuildChunkBounds: the same corrected guard. Where the source throws on such a grid, the model returns none.
- Volumes.McVolume.ComputeBuildBounds: the same corrected guard, through GetBuildChunkBounds. Where the source throws on such a grid, the model returns [0, 1)^3.
- Volumes.McVolume.ComputeBuildBounds: promises the tightest box only when no allocated chunk is idle (holds only default ids). Idle chunks are ordinary: writing a block and then the default back leaves one, and nothing calls `cleanChunks` automatically. The border walk reads extents only from chunks on the faces of the build chunk bounds. With an idle chunk on a face and the only other non-default block inside, the source's box misses that block, and the model states nothing about that case.
- LegacyVolumes.LegacyVolume.GetBuildBounds: the same two gaps as Volumes.McVolume.ComputeBuildBounds: it is silent when an allocated chunk is idle, and the corrected guard hides the source's throw on a grid flat along X or Z.
- LegacyVolumes.LegacyVolume.CleanChunks: the same corrected guard as Volumes.McVolume.CleanChunks, hiding the same throw.
- LegacyVolumes.LegacyVolume.GetBuildChunkBounds: the same corrected guard as Volumes.McVolume.GetBuildChunkBounds, hiding the same throw.
- McvFile.ExportMcvBytes: through GetBuildChunkBounds, on a grid flat along X or Z it writes a file with no chunks, where the source throws.
- Volumes.McVolume.ExtractBlockGrid: the walk over each job's chunk box uses the corrected `iterYzx` guard (in FillFromChunks). On a job box with height but no width along X or Z, the source still visits its corner chunk position; the model visits none.
- Volumes.McVolume.FillFromChunks: the corrected guard, as stated for ExtractBlockGrid.
- Volumes.McVolume.PlaceBlockGrid: places with the corrected skip test and the corrected `iterYzx` guard (the McVolume.kt:469-472 finding and the IntBoundary finding). Its promise that every position of the box holds its state is therefore the intended result. As written, a row whose grid ids all equal the default's volume id is skipped in an empty chunk even when those ids map to another state.
- Volumes.McVolume.PlaceWithTable: the corrected skip test, as stated for PlaceBlockGrid.
- Volumes.McVolume.PlaceJobs: the corrected skip test, as stated for PlaceBlockGrid.
- Volumes.McVolume.PlaceChunks: the corrected skip test and `iterYzx` guard, as stated for PlaceBlockGrid.
- Volumes.McVolume.PlaceChunk: the corrected skip test, as stated for PlaceBlockGrid.
- Volumes.McVolume.PlaceIntoEmpty: allocates a chunk by the corrected skip test, as stated for PlaceBlockGrid.
- BlockGrids.FindDefaultIndex: the corrected search. It yields the least grid id mapped to the default; the source's `firstOrNull` yields the volume-side id, the default's own palette id. BlockGrids.CreatesChunkAsWrittenSkipsBlock states what the as-written value leads to.
- BlockGrids.RowNeedsChunk: the corrected test, comparing a row's grid ids with the default's grid id; McVolume.kt:502 compares them with the default's volume id.
- BlockGrids.PlaceRow: allocates by the corrected test RowNeedsChunk.
- BlockGrids.PlaceChunkRows: allocates by the corrected test RowNeedsChunk.
- Worlds.ColumnsIn: loops over the covering column range, `a shr 4` to `(b - 1) shr 4` inclusive; World.kt:138-151 loops over `a shr 4 until b shr 4`, which is empty for a chunk narrower than a column inside one (the World.kt:138-151 finding).

## Findings

| source | as written | input that shows it | evidently intended | confidence | as-written member | corrected member |
|---|---|---|---|---|---|---|
| src/main/kotlin/mcvolume/io/Schem.kt:245-254 | `volPaletteLength` grows by one when the default string IS in the palette. A missing default gets `volPaletteLength - 1`, the file's own largest id, so that block kind is loaded as air. | palette `{"minecraft:stone": 0}` without `minecraft:air`: the stone blocks read as the default | grow the list when the default is missing, and give the default the new last slot | high, not executed | Schems.StoneOnlyPaletteSkipsStone | Schems.DefaultSlotIsAir |
| src/main/kotlin/mcvolume/IntBoundary.kt:105-134 | `hasNext` only tests the Y coordinate, so a box with zero width on X or Z still yields points | `IntBoundary.new((0,0,0), (0,1,1))` yields (0,0,0), yet no point is inside that box | yield nothing when any dimension is zero | high, not executed | Bounds.FirstYieldOfFlatBox | Bounds.CollectYzxInside |
| src/main/kotlin/mcvolume/block/MutBlockState.kt:20-30 | `setProp` on an existing property does not mark the cached `stateStr` dirty | a state with one property `n=v1`, printed once, then `setProp(n, v2)` with v2 != v1: `stateStr` still prints `n=v1` | every change marks the cache dirty | high, not executed | MutBlockStates.StaleStateStrExample | MutBlockStates.FreshStateStrExample |
| src/main/kotlin/mcvolume/block/BlockState.kt:20 | `hasProps` is a `val` computed once from the constructor's properties, and `computeStateStr` reads it; a `MutBlockState` that starts without properties and gains one through `setProp` still prints no brackets | `BlockState.new("minecraft", "lever", [])`, `toMutable()`, `setProp("facing", "north")`: `stateStr` is `minecraft:lever` | decide the brackets from the current properties | high, not executed | MutBlockStates.AddedPropUnprintedExample | MutBlockStates.AddedPropPrintedExample |
| src/main/kotlin/mcvolume/io/Mcv.kt:239 | local ids are stored as `Short` and read back signed, so ids past 32767 wrap negative and the rebuild fails | a chunk of bit size 6 holding 32769 distinct ids | read local ids unsigned | medium, not executed | McvRoundTrip.DecChunkTooManyIds | McvRoundTrip.DecChunkUnsignedAt |
| src/main/kotlin/mcvolume/McVolume.kt:469-472,502 | the allocation skip compares raw grid ids with the volume-side default id that `firstOrNull` returns, not with the grid id mapped to it | volMap `[5, 0]`, row `[0]`: grid id 0 maps to stone (5) yet the row is skipped, so an empty slot stays empty | compare grid ids with the index of the first grid id mapped to the default | high, not executed | BlockGrids.CreatesChunkAsWrittenSkipsBlock | BlockGrids.CreatesChunkSound |
| src/main/kotlin/mcvolume/io/World.kt:168-171 | the section range is `a shr 4 until b shr 4`, which is empty for chunks smaller than a section | chunk bit size 3, chunk at the origin: blocks 0..7 meet section 0, but the range `0 until 0` is empty, so the chunk is exported to no section | the sections that meet the chunk: `a shr 4` to `(b - 1) shr 4` inclusive | high, not executed | Worlds.SmallChunkInNoSection | Worlds.SectionsOfChunk |
| src/main/kotlin/mcvolume/io/World.kt:138-151 | the column range is `a shr 4` to `b shr 4` on X and Z, with `b` exclusive, which is empty for a chunk smaller than a column that lies inside one | chunk bit size 3, chunk at the origin: blocks 0..7 meet column 0, but `0 shr 4` to `8 shr 4` is the empty range, so the chunk is added to no column | the columns that meet the chunk: `a shr 4` to `(b - 1) shr 4` inclusive | high, not executed | Worlds.SmallChunkInNoSection | Worlds.ColumnsOfChunk |
| src/main/kotlin/mcvolume/io/World.kt:285-286 | `xPos` is put twice, the second time with z, and `zPos` is never put | column (1, 0, 2): `xPos` = 2, and there is no `zPos` | `xPos` = x and `zPos` = z | high, not executed | Worlds.ColumnTagsAsWrittenLoseX | Worlds.ColumnTags |
| src/main/kotlin/me/sloimay/mcvolume/mcvolume.kt:43-58 | `getPaletteBlock(String)` compares the raw string with printed states, but `fromStr` adds the `minecraft:` namespace, so a namespace-less name never matches | `getPaletteBlock("stone")` twice appends two entries for `minecraft:stone` | parse first and look up the printed form | medium, not executed | LegacyVolumes.AsWrittenLookupDuplicates | LegacyVolumes.CanonicalLookupDistinct |
