# Verified model of OpKit

OpKit compiles PHP scripts to `.phpc` files: it measures the values of a compiled script, copies them
into one block of memory, turns the pointers of the block into offsets, checksums the result, and later
loads, links, registers and unregisters it. This project models those parts in Dafny and proves what they
are for. Check it with `dafny verify dfyconfig.toml`.

## How it is built

**From values to a file and back.** A `Heap` maps addresses to strings, tables and constant expressions
with arbitrary sharing and cycles through tables. Two passes walk it. `PersistCalc` counts bytes, `Persister`
copies; both are classes with the fields of the program, proved against the walks of `ZendGraph` and
`PersistCopy`. `SizeAccounting` and `CopySizes` compare the two passes: the result does not depend on the
order of the walk, and, for expressions whose nodes form trees, the measured size is enough exactly when no
copied expression holds a childless node and the total fits in 32 bits.
`CopyIso`, `CopyTheorems` and `CopyImage` prove that copying is an isomorphism into a block whose objects are
aligned and disjoint. `FileCache` and `FileLoad` rewrite the slots of the block in place, in one direction and
in the other, following the walk of `Relocation`; `StringPool` and `InternedPool` are the string pool, once as
a table of ranges and once as the bytes that the two passes write and read. `ByteLayout` gives every field its
bytes in the finished block, `CopyReach` shows that the serializer meets everything that was copied, and `Pipeline`
joins all of it: what a process loads at another address is, table by table and node by node,
what the compiling process held, and string by string the same bytes.

**Algorithms of their own.** `HashCompact` (sparse tables are shrunk and rehashed), `Adler32` (blocks with a
deferred modulo, in scalar registers or SSE2 lanes), `EarlyBinding` (greedy matching of opcodes with recorded
bindings), `OverlapSweep` (the memory listing of `phpc -i`), `MoveRollback` (table entries of a compiled file).

**Boot and lifetime.** `ClassLinking` and `ConstantResolution` are the two saturation loops; `SharedAlloc` is the
shared segment; `Lifecycle` is load, register and reset over the global tables, with heap and segment as owners
of the script buffers.

`MachineWords`, `Sequences` and `Wrappers` hold the definitions that several of these share.

## What the proofs found

- Copying a list or generic syntax node without children computes `children - 1` in 32 bits and so moves the
  end of the arena by 2^35 bytes, while measuring counts such a node correctly (`src/opkit_zend_persist.c:192`,
  `src/opkit_zend_persist.c:223`). `SizeAccounting.ChildlessNodeOverruns` is a concrete input;
  `SizeAccounting.SizeBoundExact` says exactly when the bound holds. The input is one that zend_persist_zval
  accepts; no script is known to make the engine produce such a node.
- The measured total is returned as a `uint32_t` and 4096 is added in 32 bits (`src/opkit_zend_persist_calc.c:717`,
  `src/opkit_compile.c:2413`). From 2^32 - 4096 bytes on, the block is too small for a copy of that size
  (`CopySizes.BlockIsEnough`).
- Classes are registered under their original keys with their LINKED flag as it is (`src/opkit_module.c:1465-1475`).
  A linked class under another key is not found by the classes that name it, so they stay unlinked although their
  dependency is linked (`ClassLinking.LinkedUnderOtherKey`). A dependency must be linked and found under its name
  (`ClassLinking.LinkedExactly`).
- A class waiting under the lowercase name of another one may give that name up in the pass that ends the loop; the
  other class is then not linked (`ClassLinking.NameGivenUp`). No script is known to register a class that way.
- The comments on the horizontal sum of the SSE2 loop (`src/opkit_util_funcs.c:596-600`) name other intermediate
  lanes than the shuffles produce. The lane that is read holds the right sum, and the model follows the code.
- A request within seven bytes of 2^64 is granted by the shared allocator as an empty block
  (`SharedAlloc.HugeRequest`); the guard in front of the only caller excludes it.
- An entry that others own does not always survive a load and a reset. Both registrations update the global table
  without looking, so a script that defines a name of theirs replaces the entry, and cleaning the script then deletes
  it (`src/opkit_compile.c:1519-1529`, `src/opkit_module.c:1507-1528`). `Lifecycle.ForeignConstantIsLost` is an input;
  `Lifecycle.Engine.Reset` and `Lifecycle.Engine.Session` say exactly which entries remain.
- A request of no bytes on a full segment is granted, and opkit_accel_in_shm takes its address for foreign memory
  (`SharedAlloc.EmptyBlockIsForeign`); `SharedAlloc.Allocator.Alloc` and `InShmExactly` give the exact condition.
- A name defined by several scripts maps, after registration, to the script loaded first, because the list is
  walked from the script loaded last and later updates win (`Lifecycle.EarliestLoadedWins`).

## Model

| member | source | states |
|---|---|---|
| SizeAccounting.WalkIsReachability | src/opkit_zend_persist_calc.c:136-200 | either pass meets the least set of objects that holds what the roots point at and is closed under pointers, whatever the order of the walk |
| SizeAccounting.CopiedWasMeasured | src/opkit_zend_persist.c:234-323 | every object the copying pass takes was counted by the measuring pass |
| SizeAccounting.CopyNeverRepeats | src/opkit_wrapper.h:838-852 | the copying pass takes no object twice |
| SizeAccounting.SubsetWeighsLess | src/opkit_zend_persist_calc.c:45-54 | the sum over distinct objects depends only on the set, and a subset weighs no more; equality only for equal sets |
| SizeAccounting.SizeBound | src/opkit_zend_persist_calc.c:136-200 | without childless nodes the bytes taken never exceed the bytes measured, with equality exactly when every expression is of a kept kind and met once |
| SizeAccounting.SizeBoundExact | src/opkit_zend_persist.c:182-232 | below 2^35 measured bytes the bound holds if and only if no copied expression holds a childless list or generic node |
| SizeAccounting.ChildlessNodeOverruns | src/opkit_zend_persist.c:190-197 | the input on which the copy outgrows its measured size |
| PersistCalc.ScriptSize.AddString | src/opkit_zend_persist_calc.c:45-54 | a string is counted at its aligned size once, and not again |
| PersistCalc.ScriptSize.HashCalc | src/opkit_zend_persist_calc.c:72-90 | the bytes of a table: none when empty, else the hash part it keeps and 16 bytes per packed or 32 per mapped element; a hash part more than 8 buckets use by less than a quarter shrinks to the power of two above twice their number |
| PersistCalc.ScriptSize.ZvalCalc | src/opkit_zend_persist_calc.c:136-200 | the size grows by the weight of every object newly met from the value, expressions without a visited check |
| PersistCalc.ScriptSize.AstCalc | src/opkit_zend_persist_calc.c:92-134 | the size grows by the bytes of the tree and of all objects newly met in its literals |
| PersistCalc.ScriptPersistCalc | src/opkit_zend_persist_calc.c:717-758 | the measured size is the bytes of the rest of the script plus the weight of the objects reachable from its values, cut to 32 bits |
| Persister.Persister.MemdupPut | src/opkit_wrapper.h:838-852 | a source copied before gets its one copy and the arena stays; a new one is placed at the end of the arena, which moves by its size, and its translation is recorded |
| Persister.Persister.StoreString | src/opkit_zend_persist.c:56-70 | a string slot ends with the address of its one copy |
| Persister.Persister.PersistZval | src/opkit_zend_persist.c:234-323 | the state after a value is what the specified run leaves, for any mix of shared and new objects |
| Persister.Persister.PersistArray | src/opkit_zend_persist.c:246-275 | header, data and then all buckets in order, as specified |
| Persister.Persister.PersistRef | src/opkit_zend_persist.c:276-313 | a kept expression is copied with its root behind its reference |
| Persister.Persister.PersistNode | src/opkit_zend_persist.c:182-232 | a syntax tree is copied node by node, each child pointer rewritten |
| Persister.ScriptPersist | src/opkit_zend_persist.c:1080-1121 | the block and translation table left behind are the specified ones |
| ZendGraph.HeapOkExactly | src/opkit_zend_persist.c:276-313 | the heaps covered are those of the right shape whose expressions can be numbered so that the nested ones have smaller numbers; addresses play no part |
| CopyTheorems.CopyIsIsomorphism | src/opkit_zend_persist.c:234-323 | every root holds its translation, every object met has an image whose slots hold translations: an expression that is a literal, a named constant or an enum initializer is copied with its tree right behind its reference, any other becomes NULL, and no two objects share an image |
| CopyTheorems.SharingPreserved | src/opkit_zend_persist.c:247-250 | two pointers lead to one copy if and only if they led to one object |
| CopyImage.PersistedImageIsWellFormed | src/opkit_wrapper.h:838-852 | objects lie aligned and disjoint between header and end, every pointer field is a slot, every live slot points at an object of the right kind |
| ByteLayout.PersistedBytes | src/opkit_zend_persist.c:140-323 | the block byte by byte: every object is as long as its contents need, the objects fill the block without a gap, every pointer field or value lies inside its object, behind the hash part in a table, and no two fields share a byte |
| ByteLayout.TableBytes | src/opkit_zend_persist.c:134-178 | the elements of a table lie behind its 56-byte header and the hash part it keeps |
| CopySizes.PersistTakes | src/opkit_zend_persist.c:1080-1121 | the end of the arena is the header plus the weight of the objects copied, and exactly the reachable objects were copied |
| CopySizes.MeasuredIsEnough | src/opkit_zend_persist_calc.c:717-758 | the size theorem for the copying pass itself |
| CopySizes.BlockIsEnough | src/opkit_compile.c:2405-2414 | while the total stays 4096 below 2^32 the block allocated has room for the copy, wherever it begins, if and only if no copied expression holds a childless node; a copy that takes all of what was measured has room only then |
| HashCompact.CompactSizeBounds | src/opkit_zend_persist.c:150-157 | the halving loop stops at a power of two above twice the used buckets, a quarter of which does not exceed them |
| HashCompact.MaskedIndex | src/opkit_zend_persist.c:168 | for a power-of-two size, the low 32 bits of any h or-ed with the negated size are a negative offset to position h modulo size of the hash part, so the index never leaves it |
| HashCompact.ChainDescends | src/opkit_zend_persist.c:165-171 | the indices along a chain strictly decrease |
| HashCompact.ChainMembers | src/opkit_zend_persist.c:165-171 | a chain holds exactly the live buckets of its slot |
| HashCompact.LookupAgreesWithList | src/opkit_zend_persist.c:150-173 | looking up through a chain finds bucket i if and only if i is the live bucket with the key; a dead bucket is never found |
| HashCompact.HashTable.Rehash | src/opkit_zend_persist.c:164-171 | after the loop every slot heads its chain, and no entry changed |
| HashCompact.HashTable.CompactSparse | src/opkit_zend_persist.c:150-173 | the compacted table has the chosen size, every bucket as it was except for its chain link, and complete chains |
| HashCompact.HashTable.Find | src/opkit_zend_persist.c:150-173 | following the rebuilt links ends, with the answer of the plain bucket list |
| Relocation.VisitIsReachability | src/opkit_compile.c:165-286 | each pointer slot reachable from the roots is relocated exactly once, and no other |
| StringPool.PoolIndexes | src/opkit_compile.c:130-157 | tags are odd and lead to the bytes of their string; different strings occupy disjoint ranges |
| StringPool.DisjointStringsFit | src/opkit_zend_persist.c:56-70 | disjoint strings between two offsets take no more than the distance |
| StringPool.PoolBelowImage | src/opkit_compile.c:66-67 | the pool with the header fits in the image size, so every tag is positive and passes the test for serialized pointers |
| InternedPool.InternedPool.Grow | src/opkit_compile.c:144-151 | the buffer is extended to whole pages, room for the new string included, and keeps its contents |
| InternedPool.InternedPool.SerializeInterned | src/opkit_compile.c:130-157 | a known string keeps its tag; a new one gets the tag of the end of the pool and its bytes are there |
| InternedPool.StringOfTag | src/opkit_compile.c:159-163 | untagging reads back the bytes of the string |
| InternedPool.StoredStringReads | src/opkit_compile.c:153-162 | a reader at the offset of a stored string finds exactly that string |
| ZendGraph.LengthField | src/opkit_compile.c:140-155 | the length of a string image is in its bytes 16 to 23, the lowest first |
| FileCache.GuardIsVisited | src/opkit_compile.c:66-67 | a slot looks serialized if and only if it was relocated before |
| FileCache.Serializer.SerializeZval | src/opkit_compile.c:258-286 | the slots and the pool afterwards are those of the walk from the slot |
| FileCache.Serializer.SerializeHash | src/opkit_compile.c:165-209 | a table reached again is left alone; otherwise its bucket pointer and all live buckets are relocated |
| FileCache.Serializer.SerializeAst | src/opkit_compile.c:215-256 | the same for a syntax tree |
| FileLoad.GuardIsLoaded | src/opkit_compile.c:69-71 | on load a slot looks relocated if and only if it was |
| FileLoad.FileSlot | src/opkit_compile.c:77-93 | what the file holds in a relocated slot: the odd tag of the string, or the pointer minus the base |
| FileLoad.LoadUndoesStore | src/opkit_compile.c:95-103 | a slot that was stored and loaded holds its old pointer moved by the distance of the bases; a string slot holds the one address of the bytes the original has from header to NUL, and at every such address these bytes are, in the pool or where the process had them |
| FileLoad.TableHolds | src/opkit_compile.c:130-163 | every string the loader has met is byte by byte at the address the loader uses for it |
| FileLoad.Unserializer.UnserializeZval | src/opkit_compile.c:897-930 | the slots afterwards are those of the same walk over the file |
| FileLoad.Unserializer.UnserializeHash | src/opkit_compile.c:856-895 | bucket pointer and live buckets are loaded once, and an uninitialized table gets the shared bucket |
| FileLoad.Unserializer.UnserializeAst | src/opkit_compile.c:819-854 | the same for a syntax tree |
| FileLoad.StoreAndLoad | src/opkit_compile.c:165-286 | every reachable slot of any well-formed image survives storing and loading at another base, every string address leads to the bytes of the original, the pool and the header fit into the image size, other slots are untouched |
| CopyReach.EverythingIsMet | src/opkit_compile.c:165-286 | from the root slots the serializer reaches every live slot of every copied table and expression |
| Pipeline.StoreThenLoad | src/opkit_compile.c:2524-2527 | a script measured, copied, stored and loaded elsewhere: a block big enough, one image per object, every root, key, element and syntax node stands for the original's (literals, named constants and enum initializers as expressions, other expressions as NULL), and a string's address leads to its bytes |
| Pipeline.LoadedString | src/opkit_compile.c:153-162 | the string at the address in a loaded slot has the length of the original and, from the header on, each of its bytes |
| Pipeline.StringsShared | src/opkit_compile.c:159-163 | two loaded string slots hold one address if and only if the originals agree in length and in every byte |
| Adler32.FromInitialValue | src/opkit_util_funcs.c:613-647 | from the initial value the checksum is 65536 times the weighted sum plus the length, modulo 65521, and one plus the byte sum, modulo 65521, as section 2.2 of RFC 1950 defines it |
| Adler32.BaseIsLargestPrime | src/opkit_util_funcs.c:552 | the modulus is the largest prime below 65536 |
| Adler32.NmaxIsLargest | src/opkit_util_funcs.c:553-554 | the block length is the largest for which full bytes on top of the largest reduced sums fit in 32 bits |
| Adler32.DeferredModulo | src/opkit_util_funcs.c:619-626 | one reduction at the end of a nonempty block equals one after every byte |
| Adler32.BlockFits | src/opkit_util_funcs.c:552-554 | in a block of 5552 bytes both sums stay below 2^32, for any 16-bit starting sums |
| Adler32.TwoBuffers | src/opkit_compile.c:2529-2530 | checksumming two buffers in turn is checksumming their concatenation |
| Adler32.ChunkIsWeighted | src/opkit_util_funcs.c:575-587 | the four lanes of one 16-byte step carry nowhere and add up to the weighted sum of its bytes |
| Adler32.HorizontalSum | src/opkit_util_funcs.c:597-601 | after the two shuffles the lowest lane is the sum of all four |
| Adler32.ScalarLoop | src/opkit_util_funcs.c:603-606 | the byte loop computes the exact sums without overflow |
| Adler32.SimdLoop | src/opkit_util_funcs.c:567-601 | the SSE2 loop computes the same sums as the byte loop, over any positive multiple of 16 bytes, with no overflow |
| Adler32.Adler32 | src/opkit_util_funcs.c:613-647 | for every 32-bit checksum and every buffer the result is the byte-by-byte definition, in either form of the loop |
| ClassLinking.ClassTable.ResolveDeps | src/opkit_module.c:1091-1139 | success if and only if every parent, interface and trait is in the table; otherwise the first missing one, by kind |
| ClassLinking.ClassTable.LinkEntry | src/opkit_module.c:1275-1375 | for any class table: an entry is linked only when its dependencies are found linked, under its own name, and nobody else holds that name; otherwise it is stuck; it is rekeyed only to its own name |
| ClassLinking.ClassTable.Pass | src/opkit_module.c:1275-1377 | a pass that links nothing leaves every eligible class stuck, unless one held the name of another |
| ClassLinking.ClassTable.LinkClasses | src/opkit_module.c:1271-1378 | the loop ends for any table; what it links is then under its own name, and linked classes are under the names of its parent, of every interface and of every trait; an unlinked eligible class whose name is free lacks one of these, provided that no such class was under the name of another; with undisputed names the linked set is the least closed one |
| ClassLinking.LinkedExactly | src/opkit_module.c:1102-1136 | a class all of whose dependencies are linked from the start ends up linked if and only if each of them is found under its name |
| ClassLinking.PlacedIsFound | src/opkit_module.c:1102-1136 | where the linked classes that a class names are under their own names, being found is being linked |
| ClassLinking.LinkedUnderOtherKey | src/opkit_module.c:1465-1475 | the table on which a class stays unlinked although its only dependency is linked |
| ClassLinking.NameGivenUp | src/opkit_module.c:1275-1377 | the table on which a pass links nothing and yet leaves a class that could be linked |
| ClassLinking.OrderDoesNotMatter | src/opkit_module.c:1271-1378 | tables with undisputed names end with the same classes linked in any order |
| ClassLinking.FoundReordered | src/opkit_module.c:1275-1277 | the names classes are found by, and the set linked at the start, go along with the order |
| ConstantResolution.Resolution.ResolveConstants | src/opkit_module.c:1159-1169 | one walk over the class constants; no change means none of those left can be evaluated |
| ConstantResolution.Resolution.ResolveDefaults | src/opkit_module.c:1171-1186 | default properties are evaluated or cannot be; class constants are untouched |
| ConstantResolution.Resolution.ResolveStatics | src/opkit_module.c:1188-1208 | the same for static members, from the last one back |
| ConstantResolution.Resolution.TryResolve | src/opkit_module.c:1144-1222 | the inner loop ends; no progress means that nothing in the class can be evaluated; a flag is set or cleared only when nothing is left |
| ConstantResolution.Resolution.ResolveAll | src/opkit_module.c:1227-1252 | the nested loops end; in every class the walk reaches that is linked and no trait, no constant, default or static that could be evaluated is left; what was evaluated is in one of these lists, and nothing more than that was forced; a flag is set or cleared only when its list is done |
| SharedAlloc.AlignedHolds | src/opkit_shared_alloc.c:117 | the aligned size is the next multiple of 8 and holds the request, unless the request is within seven bytes of 2^64; then it is zero |
| SharedAlloc.Allocator.Alloc | src/opkit_shared_alloc.c:115-127 | fails exactly when there is no segment or the aligned size exceeds what is left, changing nothing; otherwise hands out the next bytes, recognized as shared if and only if the aligned size is positive or the segment was not full |
| SharedAlloc.Allocator.FreeMemory | src/opkit_shared_alloc.c:129-135 | outstanding blocks and free memory add up to the segment |
| SharedAlloc.Allocator.BlocksAreSafe | src/opkit_shared_alloc.c:115-127 | after any run of allocations and resets the outstanding blocks are aligned, disjoint and inside the segment |
| SharedAlloc.Allocator.InShmExactly | src/opkit_shared_alloc.c:137-144 | a block is recognized as shared if and only if the blocks before it had not filled the segment; otherwise it is empty |
| SharedAlloc.Allocator.InShmWithin | src/opkit_shared_alloc.c:137-144 | every address inside an outstanding block is recognized, none outside the mapping is |
| SharedAlloc.EmptyBlockIsForeign | src/opkit_shared_alloc.c:115-144 | the input for which it fails: an empty request on a full segment |
| SharedAlloc.Allocator.Reset | src/opkit_shared_alloc.c:146-155 | all memory is free again |
| SharedAlloc.HugeRequest | src/opkit_shared_alloc.c:117-126 | every request within seven bytes of 2^64 succeeds without taking anything |
| Lifecycle.Engine.Load | src/opkit_compile.c:1473-1534 | the buffer comes from the segment exactly when the aligned size fits, from the heap otherwise; a failed read leaves lists, tables and heap as before, but the segment bytes taken stay taken; a loaded script is at the head of the list, every symbol at the start of the buffer plus its offset in the file, and every constant maps to its last definition there |
| Lifecycle.Engine.LoadThenBoot | src/opkit_module.c:1445-1531 | after boot a function or constant that only this file defines maps to the start of the buffer plus the offset of its last definition |
| Lifecycle.Engine.KeepMemory | src/opkit_module.c:161-170 | for a buffer that came from the segment or from the heap, the node at the head of the list says which, so that reset frees the right ones; the address test is the program's |
| Lifecycle.Engine.Boot | src/opkit_module.c:1445-1531 | both tables are updated by all scripts from the head of the list on |
| Lifecycle.EarliestLoadedWins | src/opkit_module.c:1445-1531 | a name maps to the last definition in the earliest loaded script that defines it |
| Lifecycle.OthersKeepTheirNames | src/opkit_module.c:1507-1528 | names no script defines keep their entries |
| Lifecycle.Engine.CleanScriptItems | src/opkit_module.c:83-154 | exactly the entries go that point, under its name, at a function or constant of the script |
| Lifecycle.Engine.Reset | src/opkit_module.c:172-205 | exactly the entries of others are left; one of theirs is still there if and only if no script has registered its name since; the list is empty, and exactly the heap buffers of the scripts are freed, each once |
| Lifecycle.Engine.Session | src/opkit_module.c:172-205 | a whole run of loads, boot or none, and reset, from any tables of others: an entry is left if and only if no file that was read defines its name, functions only if the scripts were booted |
| Lifecycle.ForeignConstantIsLost | src/opkit_compile.c:1519-1529 | the input on which an entry of others does not survive: a script defines a constant of the same name |
| Lifecycle.Engine.ShmReset | src/opkit_module.c:1800-1809 | scripts are unregistered before the segment is reused, so nothing dangles |
| EarlyBinding.Build | src/opkit_util_funcs.c:357-385 | one unset binding per delayed opcode, in order, or none without the flag |
| EarlyBinding.DelayedAt | src/opkit_util_funcs.c:357-385 | the delayed opcodes are exactly the DECLARE_CLASS_DELAYED ones, in the order of the script |
| EarlyBinding.Finalize | src/opkit_util_funcs.c:387-416 | the longest prefix of the remaining opcodes whose keys are a subsequence of the list gets its slots, each in its own binding; all others are untouched; the list is never left |
| EarlyBinding.ServedByKey | src/opkit_util_funcs.c:398-413 | an opcode that is served takes a binding with its own runtime definition key and hands it its cache slot |
| EarlyBinding.Greedy | src/opkit_util_funcs.c:398-413 | taking the first match leaves the most room: no embedding ends earlier |
| EarlyBinding.OwnBinding | src/opkit_util_funcs.c:387-416 | with all opcodes still there every opcode gets the binding built for it |
| OverlapSweep.SortSorts | bin/phpc:882-888 | sorting by start, larger blocks first, keeps the blocks |
| OverlapSweep.CrossesMeans | bin/phpc:903-910 | blocks cross if and only if one comes first, they share an address, and the other has an address the first lacks |
| OverlapSweep.EnclosesMeans | bin/phpc:890-902 | a block encloses another if and only if its addresses hold the start and every address of the other |
| OverlapSweep.MarkIsCrossing | bin/phpc:903-910 | a marked block really crosses its parent |
| OverlapSweep.NoMark | bin/phpc:890-910 | without a mark the stack is exactly the set of enclosing blocks, and no earlier block is crossed |
| OverlapSweep.Layout | bin/phpc:879-919 | some line is marked if and only if two blocks cross, address by address; down to the first mark the depth counts the earlier blocks that hold all its addresses |
| MoveRollback.EntryTable.DelBucket | src/opkit_util_funcs.c:168 | one entry is deleted; deleting the last bucket also drops the dead ones before it |
| MoveRollback.SelectAt | src/opkit_util_funcs.c:139-172 | what moves are exactly the live buckets of the wanted owner, in table order |
| MoveRollback.EntriesAre | src/opkit_util_funcs.c:139-172 | the entries of a table are exactly its live buckets, in table order |
| MoveRollback.ReversedAt | src/opkit_compile.c:1866-1876 | destruction order is table order backwards, position by position |
| MoveRollback.EntryTable.MoveUserEntries | src/opkit_util_funcs.c:139-172 | of the last count buckets the owned ones go to the script in order, the others stay; nothing is destroyed; too large a count moves nothing |
| MoveRollback.EntryTable.MoveAdded | src/opkit_compile.c:1921-1923 | for any mark, also above the table, entries are neither lost nor duplicated |
| MoveRollback.EntryTable.Rollback | src/opkit_compile.c:1866-1876 | the buckets below the mark are as they were and those above are destroyed, last first, each once |
| MoveRollback.EntryTable.FailedCompile | src/opkit_compile.c:1858-1895 | a compilation that adds entries and fails leaves the table as it was |
| MoveRollback.ClearedEntries | src/opkit_util_funcs.c:159-170 | deleting the owned buckets of a range leaves the entries before it and the foreign ones in it |

## Left out

- Files, streams, directories, Phar, Composer and command-line output.
- The Zend compiler and executor, opcode handlers, map_ptr slots, garbage-collector flags and reference counts.
- op_arrays, classes, attributes, type lists and warnings in the measuring, copying and relocating passes; values
  (strings, packed and mapped arrays, constant expressions) are modelled in full. IS_REFERENCE, IS_OBJECT,
  IS_INDIRECT and IS_RESOURCE values count as plain.
- PHP 8.5 expression kinds (closures and first-class callables in constants) and property hooks.
- Syntax nodes shared inside one expression or between two: an expression owns its nodes as a tree. The copying pass
  takes a shared node once but persists the children of the copy again (`src/opkit_zend_persist.c:212-224`); the size
  theorems say nothing about such input. Expressions nested in each other's literals may be shared in any way but form
  no cycle, because the walk over them has no visited check: some numbering falls along the nesting
  (`ZendGraph.HeapOkExactly`).
- The order of two writes in the copy of a child: the model stores a child's address before it descends into the
  child, the program afterwards. Neither reads the slot in between.
- Contents of padding bytes between strings of the pool, and the counters that split the size by partition beyond
  data and miscellaneous.
- The loader's own interning of strings: a table from content to addresses above the script stands for it, and a
  map from these addresses to bytes for what lies there.
- The checksum is not verified by the loader, so nothing is claimed about corrupted files; magic and system_id tests
  are not modelled.
- The hash part of a copied table is a length in the image; that its chains find the keys is proved of the rebuilt
  table in `HashCompact`, not of the loaded one.
- ClassLinking.ClassTable.LinkClasses: takes zend_do_link_class as succeeding exactly when every named dependency is
  the key of a linked entry. Which classes are linked when names are disputed depends on the order and is not stated.
- ConstantResolution.Resolution.ResolveAll: takes evaluation as one slot at a time; the engine may evaluate other
  class constants on the way.
- ConstantResolution.Resolution.TryResolve: the test that skips traits is part of the caller's condition.
- Class entries in registration and reset: linking may replace the pointer in the table.
- Lifecycle.Engine.Boot: does not execute the scripts; what user code does to the tables is OthersChange. Runtime
  caches of executed scripts and loaded_path strings are not part of the heap.
- Lifecycle.Engine.Load: assumes a nonempty buffer and symbols inside it; malformed files are not modelled.
- Locking, and several processes on one segment: the segment header is private to a process.
- Early bindings over a whole boot, where the delayed opcodes are removed before the list is finalized; the two
  functions are modelled by themselves.
- OverlapSweep.Layout: says nothing about depths below the first mark, where the program's stack is no longer nested;
  truncation of long names is not modelled.
- MoveRollback: compaction of a global table during a compilation, which would move entries across the mark; hash
  chains of the global tables.
