# Verified model of the Firefly compiler's support layer

Firefly compiles Erlang. Below its IR passes lies a layer of small components
that everything else trusts: arenas and the symbol interner, the renaming
index of the kernel pass, the size-class allocator of the runtime, the source
reader, and a handful of arithmetic cores. This project models those
components in Dafny and proves what they promise, over every input, every run
or every interleaving.

| part | files | main results |
|---|---|---|
| arenas | `ArenaGrowth`, `TypedArena`, `DroplessArena`, `Memory` | `TypedArenas.Lifetime`, `DroplessArenas.AllocMany` |
| interner | `SymbolTable`, `Interner`, `InternerRun` | `InternerRuns.Session`, `SymbolTables.RunIsStable`, `SymbolTables.EnterIsStable` |
| renaming index | `BiMap` | `BiMaps.RunFaithfulIff`, `BiMaps.RenameKeepsFaithful`, `BiMaps.RenameKeepsExact`, `BiMaps.LookupAppliesAll`, `BiMaps.NewNamesAreFresh` |
| size-class allocator | `SizeClasses`, `Slab`, `ShippedClasses`, `SizeClassAlloc`, `AllocSession`, `AllocOverruns`, `BlockBits` | `AllocSessions.Session`, `AllocSessions.RefusedIff`, `AllocOverruns.FirstOverrun`, `Slabs.FitsExactly`, `ShippedClasses.ShippedFit`, `SizeClasses.BothIndices`, `BlockBits.NoDoubleAllocation`, `BlockBits.WaitFree` |
| source reading | `Utf8`, `SourceIndex`, `FileMapSource`, `Scanner`, `SourceFile` | `FileMapSources.ReadMany`, `Scanners.PopMany`, `SourceFiles.LocationsIncrease` |
| LEB128 | `Bits`, `Leb128` | `Leb128.ReadBack` |
| literals | `Literals` | `Literals.CmpSpec`, `Literals.TotalOrderIff`, `Literals.AntisymmetricIff` |
| profiler strings | `StringCache` | `StringCaches.AnswersLastCall`, `StringCaches.SameStringSameId`, `StringCaches.IdsDistinctIff` |
| names | `SymbolNames`, `FunctionNames` | `SymbolNames.GenerateAll`, `FunctionNames.ParseSpec`, `FunctionNames.RoundTripIff` |
| statistics | `StatsAlloc` | `StatsAllocs.Account`, `StatsAllocs.Conserved` |

State that the source updates in place is a class here; its methods are proved
against functions on values, and the laws are lemmas about those functions.
What lies outside the components enters as a parameter: the memory a system
allocator grants (`Grant`, `mapped`, `answer`), and the order in which threads
take steps (a sequence of steps).

## What does not hold, and exactly when it does

The code is modelled as it is. Where a natural law fails, a lemma gives an
input on which it fails, and another the exact condition.

- A slab carrier counts its blocks as if its own 24-byte header took no room, so
  the last block may reach past the carrier. With `unit = 8 + 64 * block`,
  `q = 262136 / unit` and `left = 262136 % unit`, the distance from its end to the
  carrier's end is `left - 24` when `q` is not a multiple of 64, and otherwise
  `(left - 8) % block - 24`, or `left - 32` when `left` is at most 8
  (`Slabs.LastBlockEnds`). All blocks end inside the carrier if and only if that is
  not negative (`Slabs.FitsExactly`). They start inside, which is what masking
  needs, under a weaker condition that only blocks of at most 32 bytes can miss
  (`Slabs.StartsInsideExactly`, `Slabs.LargeBlocksStartInside`); blocks of 762
  words miss the first and meet the second (`Slabs.OverrunWithoutLoss`). Of the 83
  shipped classes exactly the one of two words misses both: its last block starts
  where the next carrier may start, and masking finds the wrong carrier
  (`ShippedClasses.ShippedFit`, `Slabs.SixteenByteBlocksOverrun`).
- A caller can tell such a block from its address alone: it is good if and only if
  its offset from the last multiple of the carrier size is at least 32 and leaves
  room for its length (`SizeClassAllocs.BlockInCarrier`). The allocator is proved
  for every table that `new` accepts, the shipped one included: live blocks never
  overlap (`SizeClassAllocs.LiveBlocksApart`), masking finds the carrier of a live
  block if and only if its address passes the first test
  (`SizeClassAllocs.OwnerByMask`), and whole runs keep every promise up to the first
  block that fails the tests, the first free one of its carrier
  (`AllocSessions.Session`). On classes that fit it never comes, on the shipped ones
  only for requests of at most 16 bytes (`AllocOverruns.ShippedOverrun`). A carrier
  of a class that does not fit is never full before (`AllocOverruns.NeverFull`), and a
  new allocator hands out its blocks in order up to such a one
  (`AllocOverruns.FirstOverrun`).
- The number of words in a carrier's bit set tests the wrong remainder, so some
  blocks have no bit and are never handed out. All have one if and only if `q` is a
  multiple of 64 or no block is left over for a last word
  (`Slabs.AllBlocksHaveBits`). Of the shipped classes this holds exactly for two
  words and for 512 or more; the other 42 lose blocks (`ShippedClasses.ShippedFit`,
  `Slabs.SomeBlocksHaveNoBit`).
- A comment in `slab.rs` promises 32,767 blocks of the smallest class. It counts
  32,262 and hands out 32,256 (`Slabs.SomeBlocksHaveNoBit`).
- The generated `index_for` panics above the largest class, where the one by binary
  search answers `usize::MAX`; they agree on all other classes
  (`SizeClasses.BothPositions`).
- `BiMap::rename` replaces the inverse entry of the new value instead of
  extending it, and maps the old name without retracting what it mapped to
  before. Its index stays exact if and only if nothing refers to the old name, or
  the new name is used by nothing else and the old one is not mapped elsewhere
  (`BiMaps.RenameKeepsExact`). What the index is for is less: that every rename
  yields the map that scanning yields, which holds if and only if the index is exact
  but for names that map to themselves (`BiMaps.FaithfulIff`). A rename keeps that
  if and only if it neither drops another reference to the new name nor strands the
  old name under a third (`BiMaps.RenameKeepsFaithful`); if it does, a later rename
  to any other name misses a name or renames one too many (`BiMaps.LostShows`,
  `BiMaps.UnsafeRunDiverges`). Over runs the condition is exact as well
  (`BiMaps.RunFaithfulIff`), and weaker than an exact index
  (`BiMaps.InexactButFaithful`). A caller that replaces each name at most once, and
  each time by a name not used for another, is safe (`BiMaps.NewNamesAreFresh`).
- The order of literals puts nil above binaries and binaries above nil, where its
  comment puts nil first. The documented order is a total order on all literals
  (`Literals.Antisymmetric`, `Literals.Transitive`). The code agrees with it on two
  literals whose first difference is not nil against a binary
  (`Literals.CodedOrder`), and compares two literals consistently in both directions
  if and only if that is so (`Literals.AntisymmetricIff`). It is a total order on a
  family of literals, whatever the family, if and only if no two of them differ
  first in that way (`Literals.TotalOrderIff`).
- `DroplessArena::align` asserts that the aligned address is still inside the
  chunk; a full chunk passes if and only if its end is aligned
  (`DroplessArenas.FullChunkAligns`). A run of two requests reaches the failure
  (`DroplessArenas.AlignmentAssertionFails`). A new chunk is not aligned again: an
  answer is aligned if and only if the arena did not grow for it or the chunk happens
  to start aligned (`DroplessArenas.AlignedIff`).
- Interned symbols count up and gensyms count down. A new gensym is new if and
  only if the two ranges do not meet (`SymbolTables.NextGensymIsNew`), and
  interning a new string leaves all answers alone if and only if they still do
  not meet afterwards (`SymbolTables.EnterIsStable`).
- String ids of the profiler wrap at 32 bits. They are distinct if and only if
  at most 2^32 strings are cached (`StringCaches.IdsDistinctIff`).
- A scanner reports the end of its source at the end of its span if and only if
  the source has at least two characters (`Scanners.EndReportedAtSpanEnd`).
- Parsing a printed function name gives it back if and only if the part before
  the separator has no colon (`FunctionNames.RoundTripIff`).
- Line starts, lengths, lines and columns are cast to 32 bits. The casts change
  nothing if and only if the source has fewer than 2^32 bytes and fewer than
  2^32 - 1 lines (`SourceFiles.CastsAreExact`); a line that starts at 2^32 is kept as
  a second line that starts at 0 (`SourceFiles.HugeSourceRepeatsStart`).
- A LEB128 group of more than ten bytes shifts by the word size or more; the readers
  return a value if and only if the group is not longer
  (`Leb128.DwarfReader.ReadDigits`).
- `location` computes the last index of a source as its length minus one, which
  underflows on an empty source, and reports a broken character at that index as
  an index that is too large (`SourceFiles.LocationErrors`).

## Model

| member | source | states |
|---|---|---|
| ArenaGrowth.DoubledHasRoom | compiler/intern/src/arena.rs:184-193 | the doubling loop ends with room for the request, at least twice the old capacity, and no more than it must |
| ArenaGrowth.DoubledSpec | compiler/intern/src/arena.rs:184-189 | the loop doubles once and then exactly as often as it takes to reach the request, and fails exactly when that overflows 64 bits |
| ArenaGrowth.DoubledIff | compiler/intern/src/arena.rs:184-189 | doubling succeeds if and only if some power of two reaches the request without overflow |
| TypedArenas.CapacityHasRoom | compiler/intern/src/arena.rs:176-199 | a new chunk has room for the request and, after the first, at least twice the last one's |
| TypedArenas.NewCapacityIs | compiler/intern/src/arena.rs:176-195 | the first chunk has the slots that fill a page, or as many as are asked for if those are more; a later one is the last one doubled as often as needed |
| TypedArenas.CanGrowIff | compiler/intern/src/arena.rs:176-199 | the arena can grow if and only if that capacity exists and its slots are at most `isize::MAX` bytes |
| TypedArenas.TypedArena.constructor | compiler/intern/src/arena.rs:97-105 | a new arena has no chunks, and nothing was created or destroyed |
| TypedArenas.TypedArena.GrownCapacity | compiler/intern/src/arena.rs:178-194 | the loop computes the capacity that the specification asks for, or overflows exactly when it says so |
| TypedArenas.TypedArena.Grow | compiler/intern/src/arena.rs:176-199 | all earlier chunks stay, the last of them full; the new one is raw and has the computed capacity; failure changes nothing and happens exactly when capacity or grant is out of range |
| TypedArenas.PushRawKeeps | compiler/intern/src/arena.rs:176-199 | pushing a raw chunk keeps the invariant because the last chunk is full |
| TypedArenas.WriteKeeps | compiler/intern/src/arena.rs:119-141 | writing one cell keeps the invariant, with the new object as the last created |
| TypedArenas.TypedArena.Alloc | compiler/intern/src/arena.rs:119-141 | exactly one object is added and nothing destroyed; it fails if and only if the last chunk is full and the arena cannot grow |
| TypedArenas.TypedArena.Destroy | compiler/intern/src/arena.rs:55-66 | drops exactly the objects of a chunk's written cells, in order, and never a raw or dropped cell |
| TypedArenas.TypedArena.ClearLastChunk | compiler/intern/src/arena.rs:220-241 | the length found from the addresses is the number of written cells; all of them are dropped and the chunk is empty again |
| TypedArenas.TypedArena.DestroyFull | compiler/intern/src/arena.rs:202-216 | the loop over the earlier chunks drops exactly their objects |
| TypedArenas.AllLogged | compiler/intern/src/arena.rs:202-216 | the last chunk's objects and the other chunks' complete the log: each object once |
| TypedArenas.TypedArena.Clear | compiler/intern/src/arena.rs:202-216 | every object created so far has been destroyed exactly once, and one empty chunk is left at most |
| TypedArenas.TypedArena.Drop | compiler/intern/src/arena.rs:245-260 | every object ever created has been destroyed exactly once |
| TypedArenas.Lifetime | compiler/intern/src/arena.rs:119-260 | over every run of `alloc` and `clear` that ends with drop: which allocations succeed is determined by the grants, no object is destroyed before the next clear or the drop, and each is destroyed exactly once |
| DroplessArenas.MaskRoundsUp | compiler/intern/src/arena.rs:301-305 | adding and masking yields a multiple of the alignment, not below the address and less than one alignment above |
| DroplessArenas.AlignUpSpec | compiler/intern/src/arena.rs:301-305 | the aligned address is the least multiple of the alignment not below the address |
| DroplessArenas.FullChunkAligns | compiler/intern/src/arena.rs:301-305 | the assertion of `align` holds on a full chunk if and only if its end is aligned |
| DroplessArenas.DroplessArena.constructor | compiler/intern/src/arena.rs:280-287 | a new arena has no chunks and has handed out nothing |
| DroplessArenas.DroplessArena.Align | compiler/intern/src/arena.rs:301-305 | moves up to the aligned address, and succeeds if and only if that is still inside the chunk |
| DroplessArenas.DroplessArena.GrownCapacity | compiler/intern/src/arena.rs:309-327 | the loop computes the capacity that the specification asks for, which has room |
| DroplessArenas.DroplessArena.Grow | compiler/intern/src/arena.rs:309-330 | exactly one chunk is added, at the granted address and with the computed capacity and what was granted beyond it; failure changes nothing |
| DroplessArenas.NewRegionApart | compiler/intern/src/arena.rs:333-349 | a region at or above the next free address overlaps no earlier region |
| DroplessArenas.StoreKeeps | compiler/intern/src/arena.rs:372-388 | filling a new region keeps the bytes of all earlier ones |
| DroplessArenas.DroplessArena.AllocRaw | compiler/intern/src/arena.rs:333-349 | the region lies inside one chunk and apart from all earlier ones; answer, chunks and next address are the specified ones |
| DroplessArenas.TakenSpec | compiler/intern/src/arena.rs:333-349 | an answer is given if and only if something is asked for, the aligned address is inside the chunk, and there is room or the arena can grow; the answer is the aligned address if the request ends before the chunk does, and otherwise the start of a new chunk |
| DroplessArenas.RoomIff | compiler/intern/src/arena.rs:309-330 | the arena can grow if and only if the capacity exists: a page or the request for a first chunk, otherwise the last one doubled as often as needed; and the new chunk has it |
| DroplessArenas.DroplessArena.AllocSlice | compiler/intern/src/arena.rs:372-388 | exactly the new region is added, with its data; all regions keep their bytes |
| DroplessArenas.AllocMany | compiler/intern/src/arena.rs:280-388 | over every run of allocations, which requests are answered and with what is determined by the grants; all returned regions lie inside one chunk each, are disjoint, and hold the data they were given at the end |
| DroplessArenas.AlignedIff | compiler/intern/src/arena.rs:326-343 | an answer is aligned if and only if the arena did not grow for it, or the new chunk starts aligned |
| DroplessArenas.FilledChunk | compiler/intern/src/arena.rs:301-330 | a first request of at least a page fills its chunk; the next one fails unless the chunk's end is aligned for it |
| DroplessArenas.AlignmentAssertionFails | compiler/intern/src/arena.rs:301-305 | a run of two requests whose second trips the assertion of `align`, whatever the system would grant |
| SymbolTables.Table.Interned | compiler/intern/src/symbol.rs:342-348 | terminates on every issued symbol, with a normal symbol for the same string |
| SymbolTables.EnterKeeps | compiler/intern/src/symbol.rs:323-340 | interning keeps the table well formed: distinct strings, gensyms referring only to earlier symbols |
| SymbolTables.AddGensymKeeps | compiler/intern/src/symbol.rs:355-358 | so does issuing a gensym for an issued symbol |
| SymbolTables.AnswersAreStable | compiler/intern/src/symbol.rs:342-369 | in any extension of the table whose ranges have not met, `get` and `interned` answer as before |
| SymbolTables.InternOfGet | compiler/intern/src/symbol.rs:323-369 | interning the string of a symbol changes nothing and yields its interned symbol |
| SymbolTables.NextGensymIsNew | compiler/intern/src/symbol.rs:355-358 | the next gensym is not issued yet if and only if the two ranges do not meet |
| SymbolTables.GensymStandsFor | compiler/intern/src/symbol.rs:350-369 | a gensym has the string and the interned symbol of what it was made from |
| SymbolTables.EnterIsStable | compiler/intern/src/symbol.rs:323-340 | a new string leaves every earlier answer alone if and only if the ranges have not met |
| SymbolTables.RunKeeps | compiler/intern/src/symbol.rs:323-358 | every run keeps the table well formed and only extends it |
| SymbolTables.RunIsStable | compiler/intern/src/symbol.rs:313-370 | over every run that keeps the ranges apart, all answers about issued symbols stay |
| SymbolTables.RunIssuesNewGensyms | compiler/intern/src/symbol.rs:350-358 | over every such run, each gensym is new when it is issued |
| Interners.Interner.constructor | compiler/intern/src/symbol.rs:314-321 | a fresh interner has exactly the table's strings, at the table's positions |
| Interners.Interner.BuildTables | compiler/intern/src/symbol.rs:314-321 | the loop makes `names` and `strings` inverse to each other |
| Interners.InverseGrows | compiler/intern/src/symbol.rs:337-338 | adding a new string to both keeps them inverse |
| Interners.Interner.DerefString | compiler/intern/src/symbol.rs:330-337 | every recorded string still reads as when it was interned, in spite of its extended lifetime |
| Interners.Interner.Get | compiler/intern/src/symbol.rs:364-369 | reads through the arena what the table says, on every issued symbol |
| Interners.Interner.Interned | compiler/intern/src/symbol.rs:342-348 | terminates and agrees with the table, on every issued symbol |
| Interners.InternStepSpec | compiler/intern/src/symbol.rs:323-340 | a string is interned if and only if it is known, or an index and memory are left for it; exactly it is entered then, and the answer is its symbol; the empty string never reaches the arena |
| Interners.Interner.Intern | compiler/intern/src/symbol.rs:323-340 | through the arena, `names` and `strings`, state and answer are the specified ones |
| Interners.Interner.Gensymed | compiler/intern/src/symbol.rs:355-358 | adds one gensym for the symbol and returns its index, or panics when the range is used up |
| Interners.GensymStepSpec | compiler/intern/src/symbol.rs:350-353 | interns the string, then issues a gensym for it; fails exactly when interning does or the gensyms are used up |
| Interners.Interner.Gensym | compiler/intern/src/symbol.rs:350-353 | state and answer are the specified ones |
| InternerRuns.AnswersStay | compiler/intern/src/symbol.rs:342-369 | an answer stays right in any later table whose ranges have not met |
| InternerRuns.GensymServes | compiler/intern/src/symbol.rs:350-358 | while the ranges have not met, a gensym has the text asked for and was not issued before |
| InternerRuns.NextServes | compiler/intern/src/symbol.rs:323-358 | a call only extends the tables; while the ranges have not met, an answer has the text asked for and a gensym is new; a known string is never refused |
| InternerRuns.Perform | compiler/intern/src/symbol.rs:323-358 | a call on the interner leads to the specified state and answer |
| InternerRuns.Session | compiler/intern/src/symbol.rs:313-370 | over every run from the built-in table, how each call is answered is determined by table, calls and grants; while the ranges have not met, every symbol returned still reads as its text through the arena, equal strings gave equal symbols and different ones different symbols, and each gensym is neither built in nor any other answer |
| BiMaps.SetKeepsExact | compiler/syntax_kernel/src/bimap.rs:77-81 | `set` keeps the inverse index the exact preimage of the map, with no empty sets |
| BiMaps.CleanupSpec | compiler/syntax_kernel/src/bimap.rs:98-116 | the cleaned index is exact for the map without the key |
| BiMaps.AddKeepsExact | compiler/syntax_kernel/src/bimap.rs:83-96 | adding a key that is not mapped keeps the index exact |
| BiMaps.BiMap.RenameLoop | compiler/syntax_kernel/src/bimap.rs:119-136 | the loop over the references computes the specified rename |
| BiMaps.RenameIsScan | compiler/syntax_kernel/src/bimap.rs:119-136 | `rename` yields the map that scanning all entries yields |
| BiMaps.RenameKeepsExact | compiler/syntax_kernel/src/bimap.rs:119-136 | `rename` keeps the index exact if and only if it is safe, a test on key and value before the call |
| BiMaps.RunRefinesScan | compiler/syntax_kernel/src/bimap.rs:55-136 | over every run of operations that keep the index exact, it stays so and the map equals the scanned one |
| BiMaps.FaithfulIff | compiler/syntax_kernel/src/bimap.rs:119-136 | every next rename yields the scanned map if and only if the index is exact but for names that map to themselves |
| BiMaps.SetKeepsNear | compiler/syntax_kernel/src/bimap.rs:77-116 | `set` keeps the index that exact, even when it is not exact |
| BiMaps.RenameKeepsFaithful | compiler/syntax_kernel/src/bimap.rs:119-136 | `rename` leaves every next rename right if and only if it loses nothing, a test before the call |
| BiMaps.LostShows | compiler/syntax_kernel/src/bimap.rs:119-136 | after one that loses something, renames to any other name than the new one go wrong |
| BiMaps.SafeLosesNothing | compiler/syntax_kernel/src/bimap.rs:119-136 | a rename that keeps the index exact loses nothing |
| BiMaps.NewNameLosesNothing | compiler/syntax_kernel/src/bimap.rs:119-136 | nor does a rename of an unmapped name to one that nothing maps to |
| BiMaps.InexactButFaithful | compiler/syntax_kernel/src/bimap.rs:119-136 | a rename that leaves the index inexact and loses nothing |
| BiMaps.LosslessRunIsScan | compiler/syntax_kernel/src/bimap.rs:55-136 | over every run that loses nothing, the map equals the scanned one |
| BiMaps.RunFaithfulIff | compiler/syntax_kernel/src/bimap.rs:55-136 | every rename at every point of a run would yield the scanned map if and only if no substitution of the run loses anything |
| BiMaps.SafeSubstsAreExact | compiler/syntax_kernel/src/bimap.rs:72-74 | substitutions that each keep the index exact keep it so over a run |
| BiMaps.UnsafeRunDiverges | compiler/syntax_kernel/src/bimap.rs:119-136 | after an unsafe rename, a later one leaves a stale name |
| BiMaps.RenameComposes | compiler/syntax_kernel/src/bimap.rs:119-136 | looking up after a rename is looking up and then substituting |
| BiMaps.LookupAppliesAll | compiler/syntax_kernel/src/bimap.rs:41-74 | after any sequence of substitutions with unmapped keys that lose nothing, one lookup equals applying them all in order |
| BiMaps.NewNamesAreFresh | compiler/syntax_kernel/src/bimap.rs:72-136 | substitutions with distinct old and distinct new names lose nothing, so for them a lookup applies all |
| SizeClasses.BinarySearchNextLargest | liblumen_alloc/src/size_class_alloc.rs:275-309 | finds an element with the least value not below the target, or nothing exactly when all are smaller; among equal ones, the one that halving comes to |
| SizeClasses.SearchSpec | liblumen_alloc/src/size_class_alloc.rs:275-309 | halving comes to an element with the least value not below the target, or to nothing exactly when all are smaller |
| SizeClasses.PositionSpec | liblumen_alloc/src/size_class_alloc.rs:93-94 | the position searched for a request is that of its class, the first one when classes are distinct; none exactly when no class holds it |
| SizeClasses.RoundingIsHarmless | liblumen_alloc_macros/src/size_classes.rs:169-177 | a class holds a request if and only if it holds the request rounded up to words |
| SizeClasses.ClassForSpec | liblumen_alloc/src/size_class_alloc.rs:255-261 | the class for a request is the least one that holds it; none exactly when no class does |
| SizeClasses.SearchClassFor | liblumen_alloc/src/size_class_alloc.rs:255-261 | the binary search finds that class and its position |
| SizeClasses.SearchIndexFor | liblumen_alloc/src/size_class_alloc.rs:245-250 | a position of the first class not below the given one, the only one when classes are distinct, or the largest index when there is none |
| SizeClasses.GenerateTable | liblumen_alloc_macros/src/size_classes.rs:152-166 | the nested loops give, for each number of words up to the largest class, the first class that holds it |
| SizeClasses.TableClassFor | liblumen_alloc_macros/src/size_classes.rs:129-137 | the table lookup finds the least class that holds the request |
| SizeClasses.TableIndexFor | liblumen_alloc_macros/src/size_classes.rs:122-126 | the generated `index_for`: the first class that is not smaller, or a panic exactly above the largest |
| SizeClasses.IndexInverts | liblumen_alloc_macros/src/size_classes.rs:122-137 | the first class not below a class is at its own position, also after rounding |
| SizeClasses.BothIndices | liblumen_alloc/src/size_class_alloc.rs:255-261 | search and generated table give the same class for every request |
| SizeClasses.BothPositions | liblumen_alloc/src/size_class_alloc.rs:245-250 | and the same position for every class up to the largest, its own for a class of the table; above it one answers the largest index and the other panics |
| Slabs.BlockLen | liblumen_alloc/src/blocks/block_bit_set.rs:275-313 | the loop counts the blocks that fit beside their bits |
| Slabs.BlocksInClosed | liblumen_alloc/src/blocks/block_bit_set.rs:275-313 | the count in closed form: full words of 64 blocks, and the rest that fits |
| Slabs.CountedBlocks | liblumen_alloc/src/blocks/block_bit_set.rs:275-313 | the blocks of a carrier by division: full words, and the blocks of the last one |
| Slabs.LastBlockEnds | liblumen_alloc/src/carriers/slab.rs:49-63 | where the last block that can be handed out ends, in closed form; never more than 32 bytes past the carrier |
| Slabs.FitsExactly | liblumen_alloc/src/carriers/slab.rs:83-100 | all blocks of a carrier end inside it if and only if the closed form is not negative |
| Slabs.StartsInsideExactly | liblumen_alloc/src/carriers/slab.rs:83-100 | all of them start inside it if and only if the closed form exceeds minus the block size |
| Slabs.LargeBlocksStartInside | liblumen_alloc/src/carriers/slab.rs:83-100 | blocks of more than 32 bytes always start inside |
| Slabs.AllBlocksHaveBits | liblumen_alloc/src/blocks/block_bit_set.rs:315-325 | all counted blocks can be handed out if and only if the number of full words is a multiple of 64 or nothing is left for a last word; and how many can in any case |
| Slabs.OverrunWithoutLoss | liblumen_alloc/src/carriers/slab.rs:49-63 | blocks of 762 words reach past their carrier and are still found by masking |
| ShippedClasses.ShippedFit | liblumen_alloc_macros/src/size_classes.rs:21-27 | `new` accepts every shipped class; exactly the one of two words leaves its carrier; exactly that one and those of 512 words or more use all their blocks |
| ShippedClasses.ShippedCount | liblumen_alloc_macros/src/size_classes.rs:14 | there are 83 shipped classes |
| Slabs.SixteenByteBlocksOverrun | liblumen_alloc_macros/src/size_classes.rs:21-27 | the last 16-byte block starts where its carrier ends |
| Slabs.SomeBlocksHaveNoBit | liblumen_alloc/src/blocks/block_bit_set.rs:315-325 | 260-word blocks: 126 are counted and 64 handed out; one-word blocks: 32262 and 32256 |
| Slabs.AllocBit | liblumen_alloc/src/blocks/block_bit_set.rs:32-55 | without interference, takes the first clear bit of a word, and fails exactly when all are set |
| Slabs.SetBitSpec | liblumen_alloc/src/blocks/block_bit_set.rs:45-51 | setting a flag changes that bit and no other |
| Slabs.ClearBitSpec | liblumen_alloc/src/blocks/block_bit_set.rs:61-64 | clearing a flag changes that bit and no other |
| Slabs.InitSlabIsFree | liblumen_alloc/src/carriers/slab.rs:49-63 | a new carrier can hand out blocks, and all are free |
| Slabs.AllocBlock | liblumen_alloc/src/carriers/slab.rs:83-100 | takes the first free block and no other and returns its address; fails exactly when none is free |
| Slabs.FreeBlock | liblumen_alloc/src/carriers/slab.rs:103-146 | from the address alone, frees exactly the block that lies there; its assertions hold |
| SizeClassAllocs.SuperalignDownValue | liblumen_alloc/src/carriers.rs:40-42 | masking rounds down to a multiple of the carrier size |
| SizeClassAllocs.MaskFindsCarrier | liblumen_alloc/src/carriers.rs:40-42 | masking leads from an offset back to the carrier if and only if the offset is inside it |
| SizeClassAllocs.SuperalignUpSpec | liblumen_alloc/src/carriers.rs:47-49 | the least super-aligned address not below the given one |
| SizeClassAllocs.BlockInCarrier | liblumen_alloc/src/carriers.rs:40-42 | two tests on an address tell exactly whether masking finds the block's carrier, and whether the block ends inside it |
| SizeClassAllocs.FittingBlocksInside | liblumen_alloc/src/carriers/slab.rs:83-100 | every block of a size that fits passes both tests |
| SizeClassAllocs.LastBlockOverruns | liblumen_alloc/src/carriers/slab.rs:83-100 | when the size does not fit, the last block reaches into the next carrier and fails its test; when it starts outside, masking does not find its carrier |
| SizeClassAllocs.BlocksApart | liblumen_alloc/src/carriers/slab.rs:83-100 | any two blocks, of one carrier or two, are the same or do not overlap, even if they overrun their carriers |
| SizeClassAllocs.LiveBlocksApart | liblumen_alloc/src/size_class_alloc.rs:87-115 | live blocks are pairwise disjoint, to their full length |
| SizeClassAllocs.OwnerByMask | liblumen_alloc/src/size_class_alloc.rs:146-155 | masking the address of a live block yields the carrier that issued it if and only if the address passes the first test |
| SizeClassAllocs.TakeKeeps | liblumen_alloc/src/size_class_alloc.rs:94-99 | taking a free block keeps the live blocks exactly the taken ones, and the block is new |
| SizeClassAllocs.FreeKeeps | liblumen_alloc/src/size_class_alloc.rs:146-155 | freeing a live block keeps the live blocks exactly the taken ones |
| SizeClassAllocs.MapKeeps | liblumen_alloc/src/size_class_alloc.rs:164-176 | so does mapping a new carrier |
| SizeClassAllocs.SortSpec | liblumen_alloc/src/size_class_alloc.rs:58 | the classes are sorted, and a permutation of the input |
| SizeClassAllocs.FullIff | liblumen_alloc/src/size_class_alloc.rs:94-99 | the carriers of a class have no free bit if and only if all their blocks are live |
| SizeClassAllocs.PickSpec | liblumen_alloc/src/size_class_alloc.rs:87-115 | whatever answers a request is the first block of some carrier that is not live, all blocks before it being live; at most the carrier on offer is added |
| SizeClassAllocs.FirstInList | liblumen_alloc/src/size_class_alloc.rs:94-99 | the block found in a list of carriers is the first free one of its carrier, and every block of the carriers listed before is live |
| SizeClassAllocs.SizeClassAlloc.constructor | liblumen_alloc/src/size_class_alloc.rs:53-79 | on any classes that pass its assertion, a new allocator has the sorted classes, the given carriers and no live block |
| SizeClassAllocs.SizeClassAlloc.BuildCarriers | liblumen_alloc/src/size_class_alloc.rs:61-72 | one empty carrier per class, listed under it |
| SizeClassAllocs.SizeClassAlloc.TakeFromList | liblumen_alloc/src/size_class_alloc.rs:94-99 | takes the first free block of the first listed carrier that has one, and fails exactly when all their blocks are taken |
| SizeClassAllocs.SizeClassAlloc.TakeFromNew | liblumen_alloc/src/size_class_alloc.rs:100-114 | a new carrier goes to the front of its list and always has a block to take, its first |
| SizeClassAllocs.SizeClassAlloc.Allocate | liblumen_alloc/src/size_class_alloc.rs:87-115 | exactly one new live block, of the least class that holds the request; the `unwrap` never fails; the block is the first free one of the first listed carrier that has one, or the first of a new carrier, which then leads the list; an error if and only if the request is too large, or the class's carriers are full and none can be mapped |
| SizeClassAllocs.SizeClassAlloc.Deallocate | liblumen_alloc/src/size_class_alloc.rs:146-155 | for a block that passes the tests, exactly that block is freed, in its own carrier, and no byte outside it changes; debug builds fill it with the free pattern, others change no byte |
| SizeClassAllocs.SizeClassAlloc.Scrub | liblumen_alloc/src/carriers/slab.rs:139-142 | the free pattern fills exactly the block |
| SizeClassAllocs.SizeClassAlloc.Copy | liblumen_alloc/src/size_class_alloc.rs:136-138 | the ranges do not overlap, the bytes are copied, and no other block changes |
| SizeClassAllocs.SizeClassAlloc.Reallocate | liblumen_alloc/src/size_class_alloc.rs:117-144 | byte by byte, the block keeps as many of its first bytes as both sizes have, moved or not; all other blocks keep theirs; in the same class it stays, otherwise the new block is the one that allocating gives, with an error exactly when that fails; an error changes nothing |
| AllocSessions.MoveMirrors | liblumen_alloc/src/size_class_alloc.rs:117-144 | after reallocation every owner still finds what it wrote, the moved block as far as it has room |
| AllocSessions.FittingClassesNeverOverrun | liblumen_alloc/src/size_class_alloc.rs:87-115 | on classes that fit, no block fails the tests |
| AllocSessions.RefusedIff | liblumen_alloc/src/size_class_alloc.rs:87-144 | a request is answered with an error if and only if it cannot stay in its block, and it is too large, or every block of the carriers of its class is held and no carrier can be mapped |
| AllocSessions.PickIsFirst | liblumen_alloc/src/size_class_alloc.rs:93-114 | in any allocator in order, the block chosen is the first free one of a mapped carrier, and not live |
| AllocSessions.Perform | liblumen_alloc/src/size_class_alloc.rs:87-155 | each call takes the allocator through the step computed from its lists and the blocks held, and gives the outcome computed |
| AllocSessions.Session | liblumen_alloc/src/size_class_alloc.rs:87-155 | over every run of allocating, reallocating, writing and freeing, on any table, up to the first answered block that fails the tests on its address: all held blocks are disjoint and read as last written, each answer is the one computed from the operations before it, never a block that is held, but for a reallocation its own; an error means a request that is too large, or that every block of its class is held and no new carrier on offer, so one within the largest class that is offered a new carrier is answered; the block that ends a run is block `i` of a carrier mapped by then, all blocks before it in that carrier are held, and it is the block computed |
| AllocSessions.LastWriteIsRead | liblumen_alloc/src/size_class_alloc.rs:87-155 | after every such run, what was last written into a block is in memory at its address, whatever happened to other blocks |
| AllocSessions.ReallocatedIsHeld | liblumen_alloc/src/size_class_alloc.rs:117-144 | a reallocated block has the new size, and the first bytes of what was known of it: all, or as many as it has room for |
| AllocOverruns.ShippedOverrun | liblumen_alloc_macros/src/size_classes.rs:21-27 | on shipped classes, only requests of at most 16 bytes get a block that fails the tests |
| AllocOverruns.NeverFull | liblumen_alloc/src/size_class_alloc.rs:87-115 | on any table, while all live blocks pass the tests, a carrier whose blocks do not fit is not full, and has fewer live blocks than it hands out |
| AllocOverruns.FirstOverrun | liblumen_alloc/src/size_class_alloc.rs:87-115 | for every class that does not fit, a new allocator of that class hands out blocks 0, 1, … of its only carrier, as many as it can hand out at most, up to the first that fails the tests; exactly these are live then |
| AllocOverruns.HandedNext | liblumen_alloc/src/size_class_alloc.rs:94-99 | when the first `n` blocks of a carrier are live, its first free block is block `n` |
| BlockBits.StepKeepsInv | liblumen_alloc/src/blocks/block_bit_set.rs:32-64 | every step of every thread keeps the set bits exactly the held blocks |
| BlockBits.SwapTakesFreeBlock | liblumen_alloc/src/blocks/block_bit_set.rs:45-51 | a successful compare-exchange takes a block nobody holds, and no other |
| BlockBits.RunKeepsInv | liblumen_alloc/src/blocks/block_bit_set.rs:32-64 | the set bits are the held blocks in every reachable state |
| BlockBits.NoDoubleAllocation | liblumen_alloc/src/blocks/block_bit_set.rs:32-64 | between two allocations of one block, under every interleaving and whichever thread frees, it was freed |
| BlockBits.HeldUntilFreed | liblumen_alloc/src/blocks/block_bit_set.rs:61-64 | a block stays with its holder until some thread frees it |
| BlockBits.FailedTriedAll | liblumen_alloc/src/blocks/block_bit_set.rs:32-55 | under every interleaving, a thread that fails has, since it started, found each bit set or lost a compare-exchange on it |
| BlockBits.WaitFree | liblumen_alloc/src/blocks/block_bit_set.rs:32-55 | whatever the other threads do, an allocation takes at most two atomic accesses of its own for each bit, and then has succeeded or failed |
| SourceIndices.PackUnpack | compiler/diagnostics/src/index.rs:18-37 | unpacking gives back the source and the index |
| SourceIndices.UnpackPack | compiler/diagnostics/src/index.rs:18-37 | packing what was unpacked gives back the word |
| SourceIndices.AddMovesIndex | compiler/diagnostics/src/index.rs:49-62 | addition moves the index modulo 2^32 and never the source |
| SourceIndices.AddFromStart | compiler/diagnostics/src/index.rs:49-62 | adding an offset to the start of a source yields that offset in it |
| SourceIndices.SubUndoesAdd | compiler/diagnostics/src/index.rs:93-106 | subtraction undoes addition |
| FileMapSources.DecodeUndoesEncode | compiler/parser/src/source.rs:90-172 | decoding the encoding of section 3 of RFC 3629 yields the scalar value |
| FileMapSources.LeadTellsLength | compiler/parser/src/source.rs:96-145 | the tests on the first byte tell the length of the encoding |
| FileMapSources.FileMapSource.constructor | compiler/parser/src/source.rs:175-202 | a new source stands before its first character |
| FileMapSources.FileMapSource.NextCharInternal | compiler/parser/src/source.rs:90-155 | yields the next scalar value with the byte offset where it starts, and nothing forever after the last |
| FileMapSources.FileMapSource.DecodeChar | compiler/parser/src/source.rs:96-152 | from the bytes of one character, its value and the offset after it |
| FileMapSources.FileMapSource.Read | compiler/parser/src/source.rs:68-87 | the next character of the text, whether or not it was peeked |
| FileMapSources.FileMapSource.Peek | compiler/parser/src/source.rs:64-66 | the character the next read will yield |
| FileMapSources.ReadMany | compiler/parser/src/source.rs:64-202 | for every text below 2^32 bytes, any number of reads yields its characters in order with their offsets, then nothing forever, and every peek equals the next read |
| FileMapSources.EncodingIsInjective | compiler/parser/src/source.rs:90-155 | no two texts have the same bytes |
| Scanners.Scanner.constructor | compiler/parser/src/scanner.rs:28-41 | a new scanner has popped nothing |
| Scanners.Scanner.Advance | compiler/parser/src/scanner.rs:51-57 | moves on by exactly one character |
| Scanners.Scanner.Pop | compiler/parser/src/scanner.rs:61-65 | yields the characters in order, then the end forever |
| Scanners.Scanner.Read | compiler/parser/src/scanner.rs:84-86 | the next pop |
| Scanners.Scanner.Peek | compiler/parser/src/scanner.rs:69-71 | the pop after the next |
| Scanners.Scanner.PeekNext | compiler/parser/src/scanner.rs:75-80 | the third pop from here |
| Scanners.PopMany | compiler/parser/src/scanner.rs:28-86 | in every reachable state `read`, `peek` and `peek_next` are the next three pops, and pops are the source's characters, then the end |
| Scanners.EndReportedAtSpanEnd | compiler/parser/src/scanner.rs:28-57 | every pop past the end is the end of the span with NUL if and only if the source has at least two characters |
| SourceFiles.LineStartsSpec | compiler/diagnostics/src/source.rs:43-45 | line starts, before the cast, are exactly 0 and the positions after a newline, in order |
| SourceFiles.CastsAreExact | compiler/diagnostics/src/source.rs:43-83 | the 32-bit casts of line starts, length and line count change nothing if and only if the source is small |
| SourceFiles.ShortIsSmall | compiler/diagnostics/src/source.rs:43-45 | a source of fewer than 2^32 - 2 bytes is small, whatever its lines |
| SourceFiles.HugeSourceRepeatsStart | compiler/diagnostics/src/source.rs:43-45 | a newline just before position 2^32 makes the kept line starts repeat |
| SourceFiles.LineIndexSpec | compiler/diagnostics/src/source.rs:92-98 | in a small source, the unique last line that starts at or before the byte; the subtraction never underflows |
| SourceFiles.LinesTile | compiler/diagnostics/src/source.rs:68-90 | in a small source, the line spans put together are the source, and exist for exactly the lines |
| SourceFiles.LineHasOneNewline | compiler/diagnostics/src/source.rs:85-90 | a line has no newline but its last byte, which is one exactly when another line follows |
| SourceFiles.BoundaryIsOffset | compiler/diagnostics/src/source.rs:109-121 | a byte index passes the boundary test only where a character starts or the text ends |
| SourceFiles.LocationIsWalk | compiler/diagnostics/src/source.rs:100-127 | in a small source, the location of a boundary is what counting newlines and characters up to it gives |
| SourceFiles.LocationErrors | compiler/diagnostics/src/source.rs:100-127 | in a small source, there is a location exactly for character boundaries, and which error there is otherwise |
| SourceFiles.LocationsIncrease | compiler/diagnostics/src/source.rs:100-127 | in a small source, locations strictly increase over the boundaries, so no two share one |
| Leb128.EncodeUDenotes | compiler/panic/src/dwarf.rs:38-53 | the unsigned encoding of section 7.6 of DWARF 4 denotes its value |
| Leb128.EncodeSDenotes | compiler/panic/src/dwarf.rs:38-72 | so does the signed one |
| Leb128.AccumulateDigit | compiler/panic/src/dwarf.rs:46 | shifting and or-ing in a digit adds it at its weight, modulo 2^64 |
| Leb128.ExtendSign | compiler/panic/src/dwarf.rs:68-70 | or-ing in the shifted ones subtracts the weight of the sign |
| Leb128.SkippedSign | compiler/panic/src/dwarf.rs:68-71 | on ten bytes, where sign extension is skipped, the word is already right |
| Leb128.DwarfReader.ReadDigits | compiler/panic/src/dwarf.rs:41-51 | the loop consumes exactly one group and accumulates its payload modulo 2^64, never shifting by 64 or more, if and only if the group has at most ten bytes |
| Leb128.DwarfReader.ReadUleb128 | compiler/panic/src/dwarf.rs:40-53 | the group's unsigned payload modulo 2^64, or an overflow exactly beyond ten bytes |
| Leb128.DwarfReader.ReadSleb128 | compiler/panic/src/dwarf.rs:55-72 | the group's signed payload in two's complement, or an overflow exactly beyond ten bytes |
| Leb128.UnsignedRoundTrip | compiler/panic/src/dwarf.rs:40-53 | every 64-bit value's encoding, followed by anything, is one group of at most ten bytes that reads back as the value |
| Leb128.SignedRoundTrip | compiler/panic/src/dwarf.rs:55-72 | the same for signed values |
| Leb128.ReadItem | compiler/panic/src/dwarf.rs:40-72 | the reader yields the encoded value and consumes exactly its encoding |
| Leb128.ReadBack | compiler/panic/src/dwarf.rs:40-72 | any mixed concatenation of encodings, followed by anything, reads back in order |
| Literals.EqualIffEq | compiler/syntax_base/src/literals.rs:107-131 | literals compare as equal exactly when `==` holds, in the coded and the documented order |
| Literals.LessIffBefore | compiler/syntax_base/src/literals.rs:182-221 | the documented comparison is the order by ranks and first differences: kinds by rank, numbers and atoms by value, lists by head and then tail, tuples, maps and binaries by the first difference or by length |
| Literals.Antisymmetric | compiler/syntax_base/src/literals.rs:183 | in the documented order, swapping the arguments flips the result, for all literals |
| Literals.Transitive | compiler/syntax_base/src/literals.rs:183 | and results chain, through nested lists, tuples and maps |
| Literals.CodedOrder | compiler/syntax_base/src/literals.rs:182-221 | the code says what is documented unless the first difference is nil against a binary, where it says greater |
| Literals.CmpSpec | compiler/syntax_base/src/literals.rs:182-221 | of any two literals, `cmp` says less, equal or greater exactly as that order does, but that nil and a binary as first difference are greater than each other |
| Literals.AntisymmetricIff | compiler/syntax_base/src/literals.rs:182-221 | two literals compare consistently in both directions if and only if their first difference is not nil against a binary |
| Literals.TotalOrderIff | compiler/syntax_base/src/literals.rs:182-221 | `cmp` is a total order on a family of literals if and only if no two of them differ first in nil against a binary |
| Literals.KindsOrderedIff | compiler/syntax_base/src/literals.rs:182-221 | of the families given by allowing nil and binaries, exactly the one that allows both is not ordered |
| StringCaches.InitialInv | compiler/profiling/src/lib.rs:253-267 | the first four strings are numbered in order |
| StringCaches.StepKeepsInv | compiler/profiling/src/lib.rs:315-339 | every step of every thread keeps ids numbered in order of insertion and answers equal to the cache |
| StringCaches.RunKeepsInv | compiler/profiling/src/lib.rs:315-339 | so in every reachable state |
| StringCaches.AnswersLastCall | compiler/profiling/src/lib.rs:315-339 | under every interleaving, an answer is the cached id of the string that its thread last called with |
| StringCaches.CallIsAnswered | compiler/profiling/src/lib.rs:315-339 | a cached string is answered at once with its id and changes nothing; any other is answered under the write lock, with the next id, which is then cached |
| StringCaches.SameStringSameId | compiler/profiling/src/lib.rs:315-339 | under every interleaving, all calls with one string return one id |
| StringCaches.DifferentStringsDifferentIds | compiler/profiling/src/lib.rs:315-339 | with at most 2^32 strings, calls with different strings return different ids |
| StringCaches.IdsDistinctIff | compiler/profiling/src/lib.rs:334-337 | ids in the cache are distinct if and only if it has at most 2^32 strings |
| StringCaches.NextIdIsFresh | compiler/profiling/src/lib.rs:334-337 | the next id exceeds all ids in the cache if and only if the counter has not wrapped |
| SymbolNames.EvalNumeral | compiler/llvm/src/builder.rs:1625-1637 | the digits evaluate back to the number |
| SymbolNames.Alphabet | compiler/llvm/src/builder.rs:1616-1617 | the digits are 0-9, a-z, A-Z, `@` and `$`, in this order |
| SymbolNames.NumeralShape | compiler/llvm/src/builder.rs:1616-1637 | digits have no dot, and the first is zero only for 0 |
| SymbolNames.BitLenOf128 | compiler/llvm/src/builder.rs:1620 | a 128-bit number has at most 128 digits, so the buffer suffices |
| SymbolNames.ReversePrefix | compiler/llvm/src/builder.rs:1634 | the used part of the buffer is reversed in place |
| SymbolNames.PushBaseN | compiler/llvm/src/builder.rs:1614-1637 | appends the numeral and never leaves the buffer, for every u128 and base from 2 to 64 |
| SymbolNames.NamesAreUnique | compiler/llvm/src/builder.rs:1175-1185 | a name determines its prefix and its number, even when prefixes have dots |
| SymbolNames.Builder.GenerateLocalSymbolName | compiler/llvm/src/builder.rs:1175-1185 | the prefix with the counter's numeral, and the counter moves on by one |
| SymbolNames.GenerateAll | compiler/llvm/src/builder.rs:1175-1185 | over every run, whatever the prefixes, all names are distinct |
| FunctionNames.ParseU8Iff | compiler/syntax_base/src/functions.rs:338-340 | an arity is accepted if and only if it is decimal digits, with or without a plus sign, for a number below 256 |
| FunctionNames.ParseParts | compiler/syntax_base/src/functions.rs:331-348 | with the first colon and the last slash after it as separators, the parts make the name, or an invalid arity an error |
| FunctionNames.ParseSpec | compiler/syntax_base/src/functions.rs:331-348 | every string: the arity is missing exactly when there is no slash after the module, and invalid exactly when what follows the last slash is not accepted |
| FunctionNames.ParseSplit | compiler/syntax_base/src/functions.rs:331-348 | the first colon and the last slash are the separators that printing put there |
| FunctionNames.ParseLocal | compiler/syntax_base/src/functions.rs:331-348 | the same for local names |
| FunctionNames.QualifiedRoundTrip | compiler/syntax_base/src/functions.rs:311-350 | a qualified name survives exactly when its module has no colon, whatever the function text |
| FunctionNames.LocalRoundTrip | compiler/syntax_base/src/functions.rs:311-350 | a local name survives exactly when its text has no colon |
| FunctionNames.RoundTripIff | compiler/syntax_base/src/functions.rs:311-350 | both, for every name and arity |
| StatsAllocs.AllocBalances | liblumen_alloc/src/stats_alloc.rs:250-267 | counting an allocation keeps the books balanced |
| StatsAllocs.ReallocBalances | liblumen_alloc/src/stats_alloc.rs:270-311 | so does a reallocation, and the subtraction does not underflow |
| StatsAllocs.DeallocBalances | liblumen_alloc/src/stats_alloc.rs:314-321 | so does a deallocation |
| StatsAllocs.StatsAlloc.Alloc | liblumen_alloc/src/stats_alloc.rs:250-267 | counts exactly the successful call, with its size: all five counters and the histogram from what they were |
| StatsAllocs.StatsAlloc.Realloc | liblumen_alloc/src/stats_alloc.rs:270-311 | counts the call and adds the difference in size when the block moved, stayed or shrank, and nothing on failure: all five counters |
| StatsAllocs.StatsAlloc.Dealloc | liblumen_alloc/src/stats_alloc.rs:314-321 | counts the call and the bytes freed, and no other counter moves |
| StatsAllocs.Account | liblumen_alloc/src/stats_alloc.rs:248-322 | over every run, each counter is the number of successful calls of its kind, or the sum of their bytes, in 64-bit arithmetic, and the histogram the sizes recorded; bytes allocated minus freed is the total size of the live blocks, and calls to `alloc` minus `dealloc` their number |
| StatsAllocs.Conserved | liblumen_alloc/src/stats_alloc.rs:248-322 | over every run and without wrap-around, bytes added are bytes freed and bytes live, and allocations are deallocations and live blocks |

## Left out

- SizeClassAllocs.SizeClassAlloc.Reallocate: when the new block fails the tests on its address, the copy runs into the header of the next carrier, and nothing is promised; an old block that fails them could not have been written or freed, and is excluded.
- SizeClassAllocs.SizeClassAlloc.Write: headers and bit sets are not part of the byte memory, so only blocks that pass the tests may be written.
- SizeClassAllocs.SizeClassAlloc.Allocate: a call is one atomic step; steps of concurrent threads are modelled for one word of a bit set (`BlockBits`), not for whole calls and the locks around the carrier lists. The alignment of the layout is ignored, as in the code.
- SizeClassAllocs.SizeClassAlloc.Deallocate: the block must be live, as the unsafe interface demands of its callers, and pass the tests; a block that starts past its carrier would be freed in the next one.
- SizeClassAllocs.SortSpec: the library's stable sort is modelled as an insertion sort.
- Slabs.BlockLen: sizes are those of a 64-bit target, with 24 bytes for a carrier's header and 8 for that of its bit set; the wasm32 constants are not modelled.
- AllocSessions.Session: a write starts the known bytes of a block anew; writing into the middle of a block is not modelled.
- TypedArenas.TypedArena.constructor: zero-sized types, which have no chunks to fill, are not modelled; `alloc_slice` and `alloc_from_iter` of typed arenas are left out, and so are destructors that panic.
- DroplessArenas.DroplessArena.AllocSlice: a slice enters as the bytes of its elements, with any alignment.
- Interners.Interner.constructor: the generated symbol table is a parameter, with the properties its generator gives it; that it holds the empty string is read off compiler/intern/src/symbols.rs.
- SourceFiles.LineIndexSpec: the library's binary search enters by its documented result on sorted input, a match or an insertion point; on the unsorted line starts of larger sources it promises nothing.
- FileMapSources.FileMapSource.constructor: the bytes are valid UTF-8, which Rust's `str` ensures.
- Literals.TotalOrderIff: floats, bit strings that are not whole bytes, annotations and hashing are not modelled, and maps are sequences of entries in key order.
- Leb128.DwarfReader.ReadDigits: a group must end inside the memory that is read; a shift by 64 or more is an overflow, as in builds with overflow checks.
- InternerRuns.Session: a call that panics leaves the interner usable; poisoning and the lock around the global interner are left out.
- FunctionNames.RoundTripIff: symbols are their texts; interning is modelled apart.
- SymbolNames.Builder.GenerateLocalSymbolName: the counter does not reach 2^64.
- StatsAllocs.StatsAlloc.Alloc: the histogram is the sequence of recorded sizes, not its buckets; the tracing hooks and the `Allocator` impl are left out.
- StringCaches.StepKeepsInv: the read and the write section are one step each, as their locks make them; event recording is left out.
- BlockBits.StepKeepsInv: memory orderings weaker than sequential consistency are not modelled; each atomic access is one step.
- Standard and segmented allocators, single-block and multi-block carriers: they rest on trees and links that would be a project of their own.
- Stack maps, span alignment, term types, pretty printers, LLVM and MLIR bindings, build scripts, command line and file search: foreign calls, I/O or only easy members.
