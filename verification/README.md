# Verified models of the SBCL runtime

SBCL's C runtime is, for the most part, its garbage collector. This project models the parts of
it whose correctness is hardest to see, and proves what they are meant to guarantee. Everything
is in terms of the runtime's own data: hop masks, mark bits, weak-table triggers, forwarding
pointers, hole chains, heap adjustments, page table entries, arena blocks.

| file | models |
|---|---|
| `HopBits.dfy`, `HopscotchInvariant.dfy`, `HopscotchFit.dfy`, `HopscotchSteps.dfy`, `Hopscotch.dfy` | the hopscotch hash table: insertion by displacement, grouped lookup, exactly which keys fit, resizing, reset, and the refinement of a finite map over whole runs |
| `HopscotchHash.dfy` | the two hash functions of the runtime, and for which keys insertion ends |
| `MarkPhase.dfy` | the full mark phase with its work queue and weak-table triggers |
| `Sweep.dfy`, `FullCollection.dfy` | the sweep after a full mark, and both phases together |
| `Cheney.dfy` | the copying collector, with lists copied to consecutive cells and weak-table triggers |
| `WeakCull.dfy` | the pass that removes dead entries from weak tables |
| `Finalizers.dfy` | the scan of the finalizer table |
| `FixedObjPage.dfy` | a page of fixed-size immobile objects, and what a collection makes of it |
| `FixedObjAlloc.dfy` | the lock-free allocator of fixed-size immobile objects, as a step relation over any number of threads |
| `FixedObjSweep.dfy` | the sweep that rebuilds the hole chains the allocator follows |
| `CodePool.dfy` | high-water mark and scan starts over the pool of code blobs |
| `Defrag.dfy` | where defragmentation puts layouts and symbols |
| `Relocation.dfy` | relocation of the spaces of a core file |
| `PageTable.dfy` | scan-start offsets with saturation, and the page table in a core file |
| `Cards.dfy` | the size of the card table and the masked card index |
| `Arena.dfy` | claiming memory from an arena, as a step relation over any number of threads |
| `ThreadPool.dfy` | fork and join of the GC worker threads, as a step relation |
| `Arithmetic.dfy`, `Common.dfy` | facts about quotients and remainders; types and facts that several modules share |

`dafny verify dfyconfig.toml` checks the whole project.

Code that updates objects in place is modelled by classes and methods with loops; each is tied
to a specification on values, and the theorems are about the specification. The concurrent
protocols are step relations: one step per shared read, write, compare-and-swap or semaphore
operation, with arbitrary interleaving, and theorems about every state of every run. Hash
functions, the decisions of the collector (what is alive, where objects went), the choices of
the operating system's and of the code allocator, and semaphores are parameters or
nondeterministic choices.

## Where code and expectation part

Each of these is stated as a theorem with the exact condition.

- Doubling a hash table until all pairs fit need not end. An attempt succeeds exactly if every
  interval of bins has at most as many keys as cells in reach (`Hopscotch.Table.TryRehash`). So
  resizing ends exactly if this holds after some doubling, and an insertion exactly if the table as it
  is or some doubled table takes the key (`Hopscotch.Table.ResizeUp`, `Hopscotch.Table.Insert`); with 32-bit hashes
  that is decided by the first 32 doublings and one condition on 2^32 bins
  (`HopscotchFit.DoublingEndsIff`). The mixing hash is a permutation of the 32 address bits above the
  lowtag (`HopscotchHash.MixHashIff`), so it always ends for keys that differ in these bits
  (`HopscotchHash.DifferentAddressesHaveRoom`); for 33 keys that are 2^36 bytes apart it never does
  (`HopscotchHash.FarKeysNeverEnd`).
- `hopscotch_containsp` does not refuse the key 0, which marks empty cells. Its answer for 0 is
  whether some probed group has an empty cell (`Hopscotch.Table.Contains`), which is so for a table
  with one key (`HopscotchInvariant.ZeroIsFound`).
- `text_page_scan_start` is described as giving 0 for a page on which no object starts. After the
  last block of a page is released it can give the address of the pool's sentinel instead
  (`CodePool.ScanStartMayBeSentinel`). Every answer is an object exactly unless the page begins below
  the high-water mark, holds the sentinel and has the sentinel's offset recorded
  (`CodePool.AnswerIsBlockIff`).
- The "alignment glitch" exit of the arena is taken exactly if the arena cannot be hidden and the
  header and the request are misaligned against each other (`Arena.GlitchIff`). A request of 5009
  bytes reaches it (`Arena.GlitchIsReachable`); whole words in a block that starts at a word exclude it
  (`Arena.WordsAreAligned`), and Lisp objects are whole double words (`Arena.GlitchIsUnreachable`).
- `calc_n_fixedobj_pages` divides by zero for a symbol kind of which there is no symbol, since its size
  is still 0, or for objects larger than a page; this is exactly when the page computation for symbols
  fails, apart from symbols of one kind with different sizes (`Defrag.SymbolAreas`,
  `Defrag.MissingKindDividesByZero`).
- `place_layout` counts a page's layouts by their own size but bumps by the size of their class, so
  a full page stays a page exactly if layouts have at least 8 words (`Defrag.RunStaysOnPageIff`;
  `Defrag.SixWordsOverflow` has 6). Symbols are counted by size but placed by spacing; the computed
  pages suffice exactly if as many fit on a page at that spacing (`Defrag.SpacingSufficesIff`).
- A page type survives saving and loading exactly if it is at most 7 apart from the single-object
  flag (`PageTable.TypeSurvivesIff`); the open-region flag is lost (`PageTable.OpenRegionIsLost`).

## Model

| member | source | states |
|---|---|---|
| HopscotchInvariant.PlaceKeepsWf | src/runtime/hopscotch.c:557-583 | storing an absent key in a free cell of its bin's neighbourhood, with the hop bit, keeps the table invariant and extends the abstract map by that pair |
| HopscotchInvariant.MoveKeepsWf | src/runtime/hopscotch.c:605-622 | one displacement keeps the invariant and the abstract map: the key moves to the free cell, its old cell becomes empty in all columns |
| HopscotchInvariant.RemoveKeepsWf | src/runtime/hopscotch.c:811-817 | emptying a key's cell and clearing its bit keeps the invariant and removes exactly that key |
| HopscotchInvariant.UpdateKeepsWf | src/runtime/hopscotch.c:785-790 | overwriting the value of a present key keeps the invariant and updates the map at that key |
| HopscotchInvariant.XorMovesBit | src/runtime/hopscotch.c:615-617 | the single exclusive-or with two bits switches one off and the other on and changes no further bit |
| HopscotchInvariant.ClaimIsUnique | src/runtime/hopscotch.c:844-867 | no cell is claimed by two hop bits |
| HopscotchInvariant.MaskFits | src/runtime/hopscotch.c:73-87 | a mask whose bits lie in the hop range fits in that many bits |
| HopscotchInvariant.GroupInRange | src/runtime/hopscotch.c:646-721 | with hop range 8, 16 or 32 no probe of a group of 4 or 8 cells leaves the key array |
| HopscotchInvariant.ProbedIffPresent | src/runtime/hopscotch.c:628-721 | comparing whole groups without looking at single hop bits finds a nonzero key exactly if the map has it |
| HopscotchInvariant.NoKeysAllZero | src/runtime/hopscotch.c:410-429 | a table without keys has zeros in all its keys, hop masks and values, so zeroing may be skipped |
| HopscotchInvariant.TalliesAgree | src/runtime/hopscotch.c:839-890 | occupied cells, total hop bits and the size of the map are equal |
| HopscotchInvariant.BinKeysCount | src/runtime/hopscotch.c:839-840 | the bits of a bin are as many as its keys, and at most the hop range |
| HopscotchInvariant.EraseKeepsWf | src/runtime/hopscotch.c:811-817 | what hopscotch_delete does to the three columns keeps the invariant and removes the key |
| HopscotchInvariant.ZeroIsFound | src/runtime/hopscotch.c:646-691 | a table holding only the key 5 in which a lookup of the key 0 succeeds |
| HopscotchFit.PlaceKeepsCompact | src/runtime/hopscotch.c:557-583 | in a table filled by insertions no free cell lies between the bin and the cell of a key; placing a key at the end of a run keeps this |
| HopscotchFit.MoveKeepsCompact | src/runtime/hopscotch.c:605-622 | a displacement keeps it except for the cell that becomes free |
| HopscotchFit.WfFits | src/runtime/hopscotch.c:550-626 | only if: the keys of any table fit, that is, every interval of bins has at most as many keys as cells in reach |
| HopscotchFit.NoFreeCell | src/runtime/hopscotch.c:571-574 | if: without a free cell to the right, the keys of the run and the new one overfill an interval |
| HopscotchFit.StuckCell | src/runtime/hopscotch.c:584-624 | if: when nothing can be moved into the free cell, they do as well |
| HopscotchFit.FilledIff | src/runtime/hopscotch.c:560-564 | in such a table the bins of the keys determine which cells are occupied |
| HopscotchFit.ShiftStep | src/runtime/hopscotch.c:605-622 | a displacement moves the free cell left past no block: a stretch of cells whose keys, and the new one, cannot leave it |
| HopscotchFit.StuckIsBlocked | src/runtime/hopscotch.c:584-624 | where nothing can be moved into the free cell there was such a block from the start |
| HopscotchFit.HoppedIsUnique | src/runtime/hopscotch.c:550-626 | the key column after an insertion that does not size the table up is determined by the one before: each displacement takes the first key of the lowest bin that reaches the free cell |
| HopscotchFit.TakenFromFirstFit | src/runtime/hopscotch.c:471-494 | attempts before the first size that holds the keys do not matter for where a further key is taken |
| HopscotchFit.GrownFurther | src/runtime/hopscotch.c:450-514 | sizing up again after a size that did not take the key ends at the first doubled size that takes it |
| HopscotchFit.LargeTablesAgree | src/runtime/hopscotch.c:62-71 | from 2^32 bins on, larger tables hold exactly the same key sets |
| HopscotchFit.DoublingEndsIff | src/runtime/hopscotch.c:463-494 | doubling until a further key is taken ends exactly if one of the first 32 doublings takes it or all keys fit in 2^32 bins |
| HopscotchFit.LargeTableTakes | src/runtime/hopscotch.c:463-494 | if all keys fit in 2^32 bins, a further one is taken within 32 doublings and two for each key |
| HopscotchFit.DifferentHashesFit | src/runtime/hopscotch.c:474-476 | keys that the mixing hash tells apart in 32 bits fit in 2^32 bins |
| HopscotchFit.DifferentHashesEnd | src/runtime/hopscotch.c:474-476 | it ends, within 32 doublings and two for each key, if the mixing hash tells the keys apart in 32 bits |
| HopscotchFit.CrowdNeverFits | src/runtime/hopscotch.c:463-494 | more than 32 keys with the same bin do not fit, whatever the size |
| HopscotchHash.XorShiftInjective | src/runtime/hopscotch.c:62-71 | a word is determined by its exclusive-or with itself shifted right |
| HopscotchHash.MixInjective | src/runtime/hopscotch.c:62-71 | the shifts and odd factors of hopscotch_hmix are a permutation of the 32-bit words |
| HopscotchHash.MixHashIff | src/runtime/hopscotch.c:62-71 | hopscotch_hmix tells two keys apart exactly if they differ in the 32 bits above the lowtag |
| HopscotchHash.DifferentAddressesHaveRoom | src/runtime/hopscotch.c:49-71 | with the runtime's hash functions, no addition of a run on keys that differ in these bits is refused |
| HopscotchHash.FarKeysMeet | src/runtime/hopscotch.c:49-71 | keys that are multiples of 2^36 apart have the same bin in a table of any size |
| HopscotchHash.FarKeysNeverEnd | src/runtime/hopscotch.c:463-494 | with the runtime's hash functions and 33 such keys no doubling ever holds the keys, nor takes a further one |
| HopscotchSteps.NeverRefused | src/runtime/hopscotch.c:463-494 | if after every addition the keys fit in 2^32 bins and there are doublings enough for the length of the run, no operation is refused, whatever the table looks like |
| HopscotchSteps.DifferentHashesHaveRoom | src/runtime/hopscotch.c:474-476 | that is so if the mixing hash tells the keys of each moment apart |
| Hopscotch.Table.constructor | src/runtime/hopscotch.c:364-408 | a new table is valid and empty, with the requested or default hop range |
| Hopscotch.Table.Displace | src/runtime/hopscotch.c:584-622 | either the first key of the lowest bin that reaches the free cell moves right into it, the new free cell is to the left, and the map is kept; or no bin in reach owns a cell left of it and nothing changed; both exactly as columns and cells |
| Hopscotch.Table.MakeRoom | src/runtime/hopscotch.c:578-622 | pulls the free cell left victim by victim until it is within reach of the bin, exactly if no block lies before the first free cell; in a packed table it fails only if the keys do not fit |
| Hopscotch.Table.TryInsert | src/runtime/hopscotch.c:550-626 | inserts the pair and returns the new count exactly if, before the call, there is room and the load is below the threshold or the bin is free, and then the key column changes by the displacements alone; otherwise the map and count are as they were, also after several moves, for one of three reasons; a packed table has room exactly if the keys fit |
| Hopscotch.Table.Find | src/runtime/hopscotch.c:694-721 | the four-cell probe finds the key exactly if the map has it, at the key's cell |
| Hopscotch.Table.Contains | src/runtime/hopscotch.c:646-691 | for nonzero keys true exactly if the map has the key; for 0 exactly if a probed group has an empty cell |
| Hopscotch.Table.Get | src/runtime/hopscotch.c:694-721 | the value that the map gives, or the default |
| Hopscotch.Table.Delete | src/runtime/hopscotch.c:795-818 | true exactly if the key was there; afterwards the map and the key column are without it |
| Hopscotch.Table.FindOwned | src/runtime/hopscotch.c:795-812 | the walk over the hop bits finds the key exactly if the map has it, at the key's cell |
| Hopscotch.Table.InsertAll | src/runtime/hopscotch.c:478-494 | copying a table from its highest cell down succeeds exactly if the keys fit the new shape, and then gives the same map |
| Hopscotch.Table.TryRehash | src/runtime/hopscotch.c:471-494 | an attempt at a new size succeeds exactly if the keys fit, with the hash function that the size calls for |
| Hopscotch.Table.FirstFit | src/runtime/hopscotch.c:470-494 | the loop ends exactly if the keys fit after one of the doublings allowed, and at the first of these |
| Hopscotch.Table.ResizeUp | src/runtime/hopscotch.c:450-514 | keeps the map through any number of failed attempts; succeeds exactly if the keys fit after one of the doublings, with the first such size |
| Hopscotch.Table.Insert | src/runtime/hopscotch.c:550-626 | inserts the pair and returns the size of the map exactly if the table as it was, or one of the doubled tables, takes the key; then the table has its old geometry or the first doubled size that takes the key; a rehashing table without room reports it unchanged |
| Hopscotch.Table.Grow | src/runtime/hopscotch.c:450-514 | sizing up and inserting again succeeds exactly if one of the doubled tables accepts the key, and ends at the first that does |
| Hopscotch.Table.Put | src/runtime/hopscotch.c:763-791 | the map gets the pair; the answer is 0 for a present key, whose cell and columns of keys and hop masks stay, and the new count otherwise; an absent key is taken exactly as by insertion |
| Hopscotch.Table.Recarve | src/runtime/hopscotch.c:234-276 | laying the three columns of another size over the same zero storage gives a valid empty table |
| Hopscotch.Table.Reset | src/runtime/hopscotch.c:424-448 | the table is valid and empty whether or not zeroing was skipped, at half its size with the default hop range exactly if the test for shrinking held, with the hash function it was created with |
| Hopscotch.Add | src/runtime/hopscotch.c:550-626 | an addition, with or without lookup, is refused exactly if neither the table before the call nor a doubling allowed takes the key; otherwise the columns and the geometry follow as insertion says |
| Hopscotch.Step | src/runtime/hopscotch.c:550-818 | one operation, bare insertion included, answers and acts as the same operation on a finite map; it leads from the snapshot of the table before to the one after, and an addition is refused exactly if the table as it was and all doublings allowed refuse the key |
| Hopscotch.Run | src/runtime/hopscotch.c:550-818 | every run of put, insert, get, contains, delete and reset answers, one by one, as a finite map does; the tables from the given one to the last follow each other operation by operation; it stops exactly at an addition that the table as it is then and all the doublings allowed refuse, and never if the keys always fit in 2^32 bins and enough doublings are allowed |
| MarkPhase.LeastClosedIsUnique | src/runtime/fullcgc.c:254-297 | there is at most one least set closed under strong references and the trigger rules |
| MarkPhase.ClosedRespectsLinks | src/runtime/gc-common.c:1375-1384 | in a closed set the key of a live table livens the value, the value the key, as the weakness asks |
| MarkPhase.LinksGiveEntryRule | src/runtime/gc-common.c:1375-1384 | conversely, links followed in both directions make both halves of a live entry live |
| MarkPhase.MarkKeepsInv | src/runtime/fullcgc.c:119-174 | setting mark bits, with or without enqueueing, keeps the marking invariant |
| MarkPhase.AddTriggerKeepsInv | src/runtime/gc-common.c:1365-1384 | adding a trigger keeps the invariant and every waiting link |
| MarkPhase.FireKeepsInv | src/runtime/gc-common.c:1410-1465 | removing a trigger whose targets all survive keeps the invariant |
| MarkPhase.QuiescentIsLeast | src/runtime/fullcgc.c:254-297 | with an empty queue and no waiting trigger whose source survives, the marked set is the least closed set |
| MarkPhase.Marker.Mark | src/runtime/fullcgc.c:119-178 | the object survives afterwards; if any bit was set, the queue grew or the leaf flag is up |
| MarkPhase.Marker.AddTrigger | src/runtime/gc-common.c:1365-1372 | the link waits in the trigger table unless its target is no pointer; no other link is lost |
| MarkPhase.Marker.ScanPairs | src/runtime/gc-common.c:1624-1657 | each link of the table has been followed or waits; if nothing was deferred all entries are live |
| MarkPhase.Marker.TraceNext | src/runtime/fullcgc.c:288-297 | one object leaves the queue, is traced once, and the invariant holds |
| MarkPhase.Marker.TestWeakTriggers | src/runtime/gc-common.c:1410-1465 | if nothing fired or nothing was newly marked, no waiting trigger has a surviving source |
| MarkPhase.Marker.TestAllWeakTriggers | src/runtime/fullcgc.c:254-267 | repeats over chains of leaf objects, and ends with work in the queue or no trigger that could fire |
| MarkPhase.Marker.Execute | src/runtime/fullcgc.c:269-297 | the phase ends with the least closed set over the roots; a surviving weak table that was not listed for culling has only live entries |
| MarkPhase.Marker.EnqueueFixed | src/runtime/fullcgc.c:245-252 | all objects outside the collected spaces are queued once |
| MarkPhase.MarkHeap | src/runtime/fullcgc.c:494-519 | after tracing from given roots the survivors are exactly the least closed set over roots and uncollected spaces; listed weak tables are live and listed once; unlisted surviving ones have only live entries |
| Sweep.StartsDisjoint | src/runtime/fullcgc.c:408-436 | objects met by walking a range do not overlap |
| Sweep.SweptWalks | src/runtime/fullcgc.c:408-436 | a swept range can be walked again, and every object that started in it still does |
| Sweep.Sweeper.Clobber | src/runtime/fullcgc.c:378-405 | exactly the words of the object are overwritten, as its space asks; a blob of the pool is pushed on the free list |
| Sweep.Sweeper.SweepOne | src/runtime/fullcgc.c:421-434 | one step leaves every object before it swept and every word after it unchanged |
| Sweep.Sweeper.SweepRange | src/runtime/fullcgc.c:408-436 | marked objects and fillers keep every word, all others are overwritten; the free list gains exactly the freed blobs and stays chained |
| FullCollection.SweepKeepsLive | src/runtime/fullcgc.c:408-436 | if the marks are those of a mark phase, the words of live objects and fillers stay and every other object is overwritten |
| FullCollection.StartsAfter | src/runtime/fullcgc.c:408-436 | after a sweep an object starts where one did, or is a pair of zeros |
| FullCollection.SweepLeavesNoGarbage | src/runtime/fullcgc.c:408-436 | a later walk meets live objects with all their words, fillers, and pairs of non-pointers, and nothing else |
| FullCollection.SweepAll | src/runtime/fullcgc.c:456-482 | so it is in every range that is swept |
| FullCollection.CollectFully | src/runtime/fullcgc.c:456-519 | after marking and sweeping, exactly the objects of the least closed set over roots and uncollected spaces keep their words, in all ranges; nothing else but fillers and pairs of non-pointers is left |
| Cheney.CopyKeepsInv | src/runtime/gc-common.c:662-673 | copying an object and leaving a forwarding pointer keeps the one-to-one pairing of copies and originals |
| Cheney.SlotKeepsInv | src/runtime/gc-common.c:104-181 | replacing a slot of a copy by its forwarded value keeps the invariant |
| Cheney.CopiesFit | src/runtime/cheneygc.c:73-80 | there are never more copies than objects |
| Cheney.Collector.Copy | src/runtime/cheneygc.c:73-80 | one copy at the free pointer, one object fewer to copy |
| Cheney.Collector.TransList | src/runtime/gc-common.c:662-699 | the cdr chain is copied to consecutive cells, each linked to the next, until it leaves uncopied conses; circular and shared tails included |
| Cheney.Collector.Scav1 | src/runtime/gc-common.c:104-112 | a pointer into from-space becomes a pointer, with the same lowtag, to the copy made of its object; any other value stays |
| Cheney.Collector.HeapScavenge | src/runtime/gc-common.c:205-231 | no strong slot of the scanned copies points into from-space, and what a live half of an entry keeps is copied or waits, though more copies are made meanwhile |
| Cheney.TiesAreEntryRule | src/runtime/gc-common.c:1375-1384 | following the ties between the halves of entries is the rule that an entry that is alive keeps both halves |
| Cheney.EntryReachable | src/runtime/gc-common.c:1624-1657 | both halves of an entry that is found alive can be reached |
| Cheney.Collector.ScanPair | src/runtime/gc-common.c:1573-1589 | an entry that is alive has both halves copied; otherwise each tied slot waits for the other half |
| Cheney.Collector.AddTrigger | src/runtime/gc-common.c:1365-1372 | the slot waits for the object unless it holds no pointer; no other slot stops waiting |
| Cheney.Collector.Fire | src/runtime/gc-common.c:1425-1450 | what waited for a copied object is copied, the waiting slots are not rewritten, and the trigger is gone |
| Cheney.Collector.TestWeakTriggers | src/runtime/gc-common.c:1410-1465 | without a trigger fired nothing was copied; if nothing was copied no trigger is left whose object has been |
| Cheney.Collector.ScavengeNewspace | src/runtime/cheneygc.c:263-279 | the scan reaches its fixpoint: no strong slot in new-space points into from-space, and no slot waits for an object that has been copied |
| Cheney.Collector.ScavengeRoots | src/runtime/cheneygc.c:166-183 | so it is with every root slot |
| Cheney.CopiedIsClosed | src/runtime/cheneygc.c:263-279 | then the copied objects are closed under strong references and the trigger rules, and hold the roots |
| Cheney.CleanIsIsomorphic | src/runtime/cheneygc.c:118-190 | then exactly the objects reachable by strong references and live entries are copied, one to one; each strong slot of a copy points to the copy of what the original slot pointed to, and a live entry has both its halves copied |
| Cheney.Collect | src/runtime/cheneygc.c:118-190 | a collection leaves new-space isomorphic to the part of the graph reachable from the roots, weak tables included: every root and every strong slot that pointed to an object points to that object's copy, and any other value is unchanged |
| WeakCull.EncodeInjective | src/runtime/gc-common.c:1814-1836 | the report of a culled cell determines index and bucket |
| WeakCull.EncodeIsRead | src/code/target-hash-table.lisp:2743-2747 | what the collector packs, Lisp reads back: the cell in bits 14 to 27 and the bucket in the 14 low bits, or the halves of a cons, which is made exactly for larger numbers |
| WeakCull.ReportsExact | src/runtime/gc-common.c:1803-1845 | some report is read as naming a cell and a bucket exactly if that cell was met in that bucket and its entry was dead |
| WeakCull.ReportsDistinct | src/runtime/gc-common.c:1803-1845 | no cell is reported twice |
| WeakCull.CountsAgree | src/runtime/gc-common.c:1803-1812 | entries left plus entries reported are the entries there were |
| WeakCull.WalkMeans | src/runtime/gc-common.c:1867-1903 | what the walk does in its order, said cell by cell: culled entries, reports and the need to rehash |
| WeakCull.WeakTable.CullCell | src/runtime/gc-common.c:1793-1862 | a dead entry is emptied, counted off and reported so that its cell and bucket are read back; a live one has both halves forwarded, each in its place; the rehash flag rises exactly if an address-sensitive key moved, despite the short circuit |
| WeakCull.WeakTable.CullBucket | src/runtime/gc-common.c:1781-1865 | the walk over a bucket's chain advances the pass by exactly its cells |
| WeakCull.WeakTable.Cull | src/runtime/gc-common.c:1867-1903 | exactly the dead entries on the chains are emptied; the new reports name exactly their cells and buckets, each once, and the count drops by their number; live entries have both halves forwarded and all others stay; a rehash is requested exactly if a surviving address-sensitive key moved |
| Finalizers.SelectIsExact | src/runtime/gc-common.c:2518-2560 | the selected nodes are exactly those that satisfy the test, each once, in list order |
| Finalizers.Partition | src/runtime/gc-common.c:2499-2503 | every counted node moved, died or stays, and only one of these |
| Finalizers.RehashIsExact | src/runtime/gc-common.c:2539-2549 | the rehash list gains the new address and data of exactly the nodes whose key moved |
| Finalizers.TriggeredIsExact | src/runtime/gc-common.c:2550-2554 | the triggered list gains the data of exactly the nodes whose key died |
| Finalizers.SweptCounts | src/runtime/gc-common.c:2518-2560 | the nodes still counted after the scan are exactly those that stay |
| Finalizers.ScanIsIdempotent | src/runtime/gc-common.c:2518-2560 | a second scan finds nothing to do |
| Finalizers.Store.Visit | src/runtime/gc-common.c:2528-2556 | one node: its entry is pushed, the count lowered and the tag of its next word cleared as its disposition asks; the link itself stays |
| Finalizers.Store.Scan | src/runtime/gc-common.c:2518-2560 | following the links, over deleted nodes too, the scan does all of this in one pass, deletes no dummy, keeps the list linked, and the stored count stays the number of undeleted real nodes |
| FixedObjAlloc.CasKeeps | src/runtime/immobile-space.c:374-387 | winning a hole by compare-and-swap keeps the invariant: the cell belonged to nobody |
| FixedObjAlloc.StoreKeeps | src/runtime/immobile-space.c:379-393 | any stale store of the free index keeps the invariant |
| FixedObjAlloc.StampKeeps | src/runtime/immobile-space.c:384-386 | noting generation 0 in the mask keeps the invariant: until then the new object counts as pending |
| FixedObjAlloc.CollectKeeps | src/runtime/immobile-space.c:838-929 | a collection, which on each page enlivens some objects and sweeps, keeps the invariant |
| FixedObjAlloc.SettleKeeps | src/runtime/immobile-space.c:250-302 | claiming a page for a spacing keeps the invariant |
| FixedObjAlloc.MutateKeeps | src/runtime/immobile-space.c:332-419 | writes of the program inside its objects, also of words that look like holes, keep the invariant |
| FixedObjAlloc.NextKeeps | src/runtime/immobile-space.c:332-419 | every step of every thread, of the program and of the collector keeps the invariant |
| FixedObjAlloc.RunKeeps | src/runtime/immobile-space.c:332-419 | the invariant holds in every state of every run |
| FixedObjAlloc.NextKeepsMasks | src/runtime/immobile-space.c:369-387 | every step keeps the generation masks exact |
| FixedObjAlloc.MasksAreExact | src/runtime/immobile-space.c:369-387 | in every run the mask of a page has exactly the generations of its objects, but for objects that are being stamped |
| FixedObjAlloc.AloneTakesHole | src/runtime/immobile-space.c:369-392 | an undisturbed thread passes over the objects from its free index on and takes the first hole: it is handed out, the free index is what the hole said, generation 0 is noted, and nothing else changes |
| FixedObjAlloc.AloneGivesUp | src/runtime/immobile-space.c:369-400 | if there is no hole up to the end of the page, it marks the page full and searches for another |
| FixedObjAlloc.CanSettle | src/runtime/immobile-space.c:344-348 | a searching thread may settle on any page of its spacing and claim any page that has none |
| FixedObjAlloc.CanGoOn | src/runtime/immobile-space.c:333-401 | a thread can always make a step, unless it searches for a page |
| FixedObjAlloc.NoOverlap | src/runtime/immobile-space.c:332-419 | in every run no two live objects overlap, and each starts at a cell boundary of a page that has its spacing |
| FixedObjPage.ClaimIsOk | src/runtime/immobile-space.c:263-283 | an unclaimed page is all zero, so claiming it for any spacing gives a page in order |
| FixedObjPage.AllHolesIsBlank | src/runtime/immobile-space.c:893-895 | a page whose cells are all zero holes is all zero, interior words and the tail included |
| FixedObjPage.EnlivenedIsReady | src/runtime/immobile-space.c:437-462 | after enlivening, flagged objects are in the new generation, the mask covers all objects, and holes are untouched |
| FixedObjPage.MaskCovers | src/runtime/immobile-space.c:824-836 | the new generation mask covers every object left |
| FixedObjPage.SweptPageIsOk | src/runtime/immobile-space.c:838-929 | a swept page is in order: holes hold multiples of the spacing and are zero otherwise; one whose mask is empty is all zero with free index 0, so it can be reused at another spacing |
| FixedObjPage.SweptIsExact | src/runtime/immobile-space.c:915-924 | if the mask was exact apart from the collected generation, after the sweep a generation is in it exactly if an object of it is on the page; a page is released exactly if no object is left |
| FixedObjPage.CollectedPageIsOk | src/runtime/immobile-space.c:838-929 | so it is after enlivening and sweeping |
| FixedObjPage.CollectedIsExact | src/runtime/immobile-space.c:830-836 | a collection leaves the mask of a page exact |
| FixedObjPage.CollectedObjectStays | src/runtime/immobile-space.c:896-903 | an object that is still there keeps its place and its words |
| FixedObjSweep.Page.Sweep | src/runtime/immobile-space.c:838-929 | unflagged objects of the collected generation become zero cells, flagged ones keep their words under the generation they are raised or returned to, all others stay; following the chain from the free index visits exactly the holes in increasing order; an exact mask stays exact, and a page without objects loses mask and spacing |
| FixedObjSweep.Page.Visit | src/runtime/immobile-space.c:880-908 | one cell gets its final form, zeroed if its object is dead, and the chain of holes so far is extended |
| FixedObjSweep.FollowVisitsHoles | src/runtime/immobile-space.c:881-910 | following displacements from a hole visits exactly the holes from there on |
| FixedObjSweep.HolesFromContent | src/runtime/immobile-space.c:881-910 | the list of holes from a cell on has exactly the free cells from there on |
| FixedObjSweep.HolesIncrease | src/runtime/immobile-space.c:881-910 | the list of holes is strictly increasing |
| FixedObjSweep.ChainFromFreeIndex | src/runtime/immobile-space.c:881-910 | the chain from the free index is strictly increasing and visits exactly the holes of the page |
| FixedObjSweep.EmptyPageIsBlank | src/runtime/immobile-space.c:909-922 | on a page without objects all displacements and the free index are 0 |
| FixedObjSweep.SweepIsPageStep | src/runtime/immobile-space.c:838-929 | what the sweep does to the cells of a page is the page step that the allocator is promised |
| FixedObjSweep.NewMaskIs | src/runtime/immobile-space.c:830-836 | the new mask has exactly the generations of the objects left, and is empty exactly if there is none |
| CodePool.AllocKeepsPool | src/runtime/immobile-space.c:163-191 | allocation, with or without a split, keeps the block sequence and adds exactly one used block |
| CodePool.FreeKeepsPool | src/runtime/immobile-space.c:193-240 | release merges free neighbours, leaves no two adjacent, and takes away exactly the block |
| CodePool.FreeKeepsMark | src/runtime/immobile-space.c:207-218 | after a release the high-water mark is again the end of the last used block |
| CodePool.AllocKeepsScanStart | src/runtime/immobile-space.c:180-183 | after an allocation every page's scan start is again its lowest used block |
| CodePool.FreeKeepsScanStart | src/runtime/immobile-space.c:219-237 | so it is after a release, where the next used block or the sentinel takes over |
| CodePool.AllocatedIsOk | src/runtime/immobile-space.c:163-191 | allocation keeps mark and scan starts right for the whole pool |
| CodePool.ReleasedIsOk | src/runtime/immobile-space.c:193-240 | release keeps mark and scan starts right for the whole pool |
| CodePool.Pool.constructor | src/runtime/immobile-space.c:1098-1127 | a new pool is one free block with the mark at its start and no scan starts |
| CodePool.Pool.Alloc | src/runtime/immobile-space.c:163-191 | performs that allocation, or changes nothing if there is no room |
| CodePool.Pool.Free | src/runtime/immobile-space.c:193-240 | performs that release |
| CodePool.ScanStartIsLowest | src/runtime/immobile-space.c:485-503 | an answer below the mark is the lowest used block that starts on the page, and that block is found whenever there is one |
| CodePool.AnswerIsBlockIff | src/runtime/immobile-space.c:485-503 | every answer is the lowest used block exactly unless the page begins below the mark, holds the sentinel and has its offset recorded |
| CodePool.ScanStartMayBeSentinel | src/runtime/immobile-space.c:485-503 | a pool in which a release leaves a page without blocks whose scan start is the sentinel |
| CodePool.Pool.PageScanStart | src/runtime/immobile-space.c:485-503 | computes the scan start of a page with that meaning |
| Defrag.PagesForIsDefinedIff | src/runtime/immobile-space.c:1603-1608 | the page computation divides by zero exactly for size 0 and for objects larger than a page |
| Defrag.PagesForIsLeast | src/runtime/immobile-space.c:1603-1608 | it gives the fewest pages that hold the objects |
| Defrag.PlacesAreGrid | src/runtime/immobile-space.c:1613-1638 | bumping the pointer and skipping to the next page puts object k at page k / n, place k % n |
| Defrag.GridOnPage | src/runtime/immobile-space.c:1610-1612 | no object crosses a page boundary |
| Defrag.GridApart | src/runtime/immobile-space.c:1613-1638 | different objects of a kind do not overlap |
| Defrag.GridInArea | src/runtime/immobile-space.c:1755-1763 | the computed pages hold all objects of the kind |
| Defrag.SymbolHistogram | src/runtime/immobile-space.c:1716-1724 | counts and sizes by kind; the assertion holds exactly if all symbols of a kind have one size |
| Defrag.LayOutAreas | src/runtime/immobile-space.c:1755-1761 | divides by zero exactly if some kind has size 0 or is larger than a page |
| Defrag.MissingKindDividesByZero | src/runtime/immobile-space.c:1603-1608 | a heap with symbols of one kind only, where the computation for another divides by zero |
| Defrag.SymbolAreas | src/runtime/immobile-space.c:1706-1763 | the areas of the kinds follow each other with the computed pages each; an assertion failure or a division by zero ends the computation exactly if two symbols of a kind differ in size, a kind does not occur, or one is larger than a page |
| Defrag.PlaceSymbols | src/runtime/immobile-space.c:1836-1855 | in whatever order the kinds come, each symbol gets the next place of its kind |
| Defrag.SymbolInArea | src/runtime/immobile-space.c:1613-1638 | each symbol lies on one page inside the area of its kind |
| Defrag.SymbolsAreApart | src/runtime/immobile-space.c:1613-1638 | no two symbols overlap, of the same or of different kinds |
| Defrag.ClassIsExactIff | src/runtime/immobile-space.c:1651-1660 | a layout is as large as its class exactly if it has at least 8 words |
| Defrag.RunStaysOnPageIff | src/runtime/immobile-space.c:1662-1688 | a full run of layouts ends on its page exactly if they have at least 8 words |
| Defrag.SixWordsOverflow | src/runtime/immobile-space.c:1662-1688 | 85 layouts of 6 words, put on one page, end behind it |
| Defrag.PlacedKeepsInv | src/runtime/immobile-space.c:1662-1688 | placing a layout keeps the placement invariant: open pages distinct, room as counted, placed objects disjoint, pages begun as tallied |
| Defrag.SizeClasses.Place | src/runtime/immobile-space.c:1662-1688 | does one such placement |
| Defrag.LayoutPages | src/runtime/immobile-space.c:1745-1753 | computes the total pages of a histogram of size classes |
| Defrag.WithinLimit | src/runtime/immobile-space.c:1670-1673 | at no point have more pages been begun than were computed |
| Defrag.PlaceLayouts | src/runtime/immobile-space.c:1836-1855 | for any order of sizes no two layouts overlap, none crosses a page, and exactly the computed pages are used |
| Defrag.SpacingSufficesIff | src/runtime/immobile-space.c:1755-1763 | pages counted by size suffice for any number placed by spacing exactly if as many fit on a page |
| Defrag.TogetherIsOk | src/runtime/immobile-space.c:1755-1763 | layouts and symbols do not overlap each other |
| Defrag.Defragment | src/runtime/immobile-space.c:1690-1763 | all layouts and symbols are pairwise disjoint, cross no page, and lie in the computed pages |
| Relocation.CalcAdjustment | src/runtime/coreparse.c:244-250 | the loop gives the delta of the last range that holds the word |
| Relocation.InverseAdjust | src/runtime/coreparse.c:252-263 | the loop gives the address from which a range moved something there |
| Relocation.SetAdjustment | src/runtime/coreparse.c:280-304 | a moved space is recorded, static space possibly with a longer range, so that every address in the range is adjusted to the same offset at the new place |
| Relocation.RecordMoves | src/runtime/coreparse.c:280-304 | the spaces that moved are recorded, in order |
| Relocation.DeltaIs | src/runtime/coreparse.c:244-250 | every heap address moves by the delta of its own space, whatever ranges other spaces have |
| Relocation.InverseUndoesAdjust | src/runtime/coreparse.c:244-269 | on every heap address inversion undoes adjustment, also where the new place of one space overlaps the old place of another |
| Relocation.AdjustInjective | src/runtime/coreparse.c:244-269 | different heap addresses stay different |
| Relocation.AdjustKeepsOffsets | src/runtime/coreparse.c:244-269 | within a space addresses keep their distance, so interior pointers and tags survive |
| Relocation.AdjustKeepsTag | src/runtime/coreparse.c:265-269 | an adjusted word is a pointer exactly if it was one |
| Relocation.Space.FixPairs | src/runtime/coreparse.c:505-524 | every key and value is adjusted, and the answer is whether a key moved |
| Relocation.Space.FixInstance | src/runtime/coreparse.c:407-429 | layout and tagged slots are adjusted, raw slots are not |
| Relocation.Space.FixCode | src/runtime/coreparse.c:459-468 | constants and jump table are adjusted, the rest is not |
| Relocation.Space.FixObject | src/runtime/coreparse.c:390-567 | each word of the object gets its relocated value by its role, computed from the old words, and nothing else changes |
| Relocation.Space.FixSpace | src/runtime/coreparse.c:390-567 | every reference of every object is adjusted exactly once, words between objects are untouched |
| Relocation.ObjectAddress | src/runtime/coreparse.c:576-620 | the new address of an object is its adjusted old one |
| Relocation.ObjectsStayApart | src/runtime/coreparse.c:576-620 | different objects do not overlap in the loaded heap |
| Relocation.AdjustedReference | src/runtime/coreparse.c:244-269 | an adjusted reference refers to the same byte of the same object as before and to nothing else; one outside the heap is unchanged |
| Relocation.FixedIsRelocated | src/runtime/coreparse.c:390-567 | what is computed word by word is what isomorphism asks of the word |
| Relocation.RolesAreKinds | src/runtime/coreparse.c:390-567 | kind by kind, which words of an object are raw, tagged references, untagged addresses or the rehash word |
| Relocation.RelocateHeap | src/runtime/coreparse.c:576-620 | for any number of spaces, with disjoint old places and disjoint new places, the loaded heap is isomorphic to the saved one: every reference, named kind by kind, refers to the same byte of the same object, all other words are unchanged, and bit 1 of a rehash word is set exactly if it was or a key moved, its other bits staying |
| PageTable.DirectDecode | src/runtime/gencgc-impl.h:628-666 | an offset that is not clipped is decoded from its field alone |
| PageTable.ClippedMeansPages | src/runtime/gencgc-impl.h:628-643 | a clipped field stands for whole pages, at least as many as the look-back distance |
| PageTable.Table.SetScanStart | src/runtime/gencgc-impl.h:628-643 | stores the encoded offset in the page's field and no other |
| PageTable.Table.Iterated | src/runtime/gencgc-impl.h:645-657 | looking back while fields are clipped yields the true offset, for blocks of any length |
| PageTable.Table.ScanStart | src/runtime/gencgc-impl.h:659-666 | every page's stored field decodes to its true offset |
| PageTable.PteFields | src/runtime/coreparse.c:1227-1260 | offset, words used, type and single-object flag can be read back from a saved entry |
| PageTable.TypeSurvivesIff | src/runtime/coreparse.c:1942-1957 | the type survives exactly if it is at most 7, apart from the single-object flag |
| PageTable.OpenRegionIsLost | src/runtime/coreparse.c:1942-1957 | a page with the open-region flag comes back without it |
| PageTable.Table.StorePtes | src/runtime/coreparse.c:1942-1957 | each entry holds the page's decoded offset with the packed type and words used |
| PageTable.Table.LoadPtes | src/runtime/coreparse.c:1227-1260 | loading rebuilds fields that stand for the same offsets, with words used and types |
| PageTable.SaveAndLoad | src/runtime/coreparse.c:1227-1260 | saving a table with closed regions and loading it gives back every page's offset, words used, type and flag |
| Cards.ComputeTableSize | src/runtime/coreparse.c:994-1036 | the saved width or, if larger, the least width of at least 13 bits with a card for every page, and so always wide enough; patching exactly if the saved width is too small; refusal beyond 31 bits |
| Cards.WiderIsEnough | src/runtime/coreparse.c:1029-1034 | any wider table covers the heap too |
| Cards.IndexIsMod | src/runtime/gencgc-impl.h:260-261 | shift and mask give the card number modulo the table size |
| Cards.CardsAreDistinct | src/runtime/gencgc-impl.h:224-261 | for every page-aligned base, two heap addresses have the same index exactly if they are on the same card |
| Cards.PageRun | src/runtime/gencgc-impl.h:224-261 | the cards of a page follow each other in the table and never wrap |
| Cards.IndexOnPage | src/runtime/gencgc-impl.h:459-460 | an index lies in a page's run exactly if the address is on that page |
| Cards.CardTable.AssignPage | src/runtime/gencgc-impl.h:459-460 | marks exactly the cards of the page; the marks of every other heap address stay |
| Arena.HidableHugeFits | src/runtime/arena.c:266-305 | in an arena that can be hidden an oversized request always fits its block |
| Arena.PlainHugeFitsIff | src/runtime/arena.c:266-305 | in any other it fits exactly if header end and request are suitably aligned |
| Arena.WordsAreAligned | src/runtime/arena.c:286-305 | word-aligned blocks and whole-word requests are |
| Arena.GlitchIff | src/runtime/arena.c:301-305 | the exit is taken exactly if they are not and the arena cannot be hidden |
| Arena.GlitchIsReachable | src/runtime/arena.c:301-305 | a run from a new arena in which a request of 5009 bytes takes the exit |
| Arena.GlitchIsUnreachable | src/runtime/arena.c:301-305 | no run in which all requests are double words, or the arena can be hidden, takes the exit |
| Arena.NextKeeps | src/runtime/arena.c:261-378 | every step of every thread and every release keeps the arena invariant |
| Arena.RunKeeps | src/runtime/arena.c:70-112 | the invariant holds in every state of every run from a new arena |
| Arena.ClaimsAreDisjoint | src/runtime/arena.c:325-382 | in every run, all ranges handed out are pairwise disjoint and inside the usable part of their block |
| Arena.ClaimsPersist | src/runtime/arena.c:325-382 | nothing but a release takes back a range |
| Arena.ExtendedOnlyWhenFull | src/runtime/arena.c:330-360 | in every run the arena is extended, or reported exhausted, only for a request that does not fit in what is left of the current block |
| Arena.AloneIsServed | src/runtime/arena.c:323-366 | an undisturbed thread whose request fits has the next bytes of the current block after three steps, and nothing else changes |
| Arena.AloneCanStep | src/runtime/arena.c:323-366 | such steps exist |
| Arena.HoldDecides | src/runtime/arena.c:332-358 | what the holder of the mutex does next: it starts over if it is late, ends the program at the limit, gets memory of its own for an oversized request that is not for conses, and otherwise makes a new current block of the usual size, with the exact sizes and bounds |
| Arena.HoldCanGoOn | src/runtime/arena.c:332-358 | given unused memory it can make that step |
| Arena.CanRelease | src/runtime/arena.c:121-152 | an arena that no thread uses can be released; its first block is then as new, and the length as at the start |
| Arena.NewArenaIsCarved | src/runtime/arena.c:70-105 | the first block of an arena is what its header leaves, up to alignment, with nothing claimed |
| Arena.LengthIsBounded | src/runtime/arena.c:346-354 | the length never exceeds the limit, or the original size if that is larger, and is exactly what was added up |
| Arena.MutexIsExclusive | src/runtime/arena.c:331-357 | at most one thread extends the arena at a time |
| Arena.BytesUsed | src/runtime/arena.c:436-450 | walking both chains gives the sum of all claims plus the spans of the huge blocks |
| ThreadPool.NextKeeps | src/runtime/gc-thread-pool.c:14-74 | every step of the caller and of a worker keeps the protocol invariant |
| ThreadPool.RunKeeps | src/runtime/gc-thread-pool.c:14-74 | the invariant holds in every state of every run, for any number of workers and rounds |
| ThreadPool.ReturnMeansAllRanOnce | src/runtime/gc-thread-pool.c:60-74 | whenever the caller is outside the pool every worker has run exactly the posted actions, once each and in order, waits again, and no semaphore is raised |
| ThreadPool.WokenWorkerSeesAction | src/runtime/gc-thread-pool.c:14-26 | a worker that was let through finds the action of this round, never a cleared one, and runs it at most once per round |
| ThreadPool.NoDeadlock | src/runtime/gc-thread-pool.c:60-74 | in every state of every run some step is possible |
| ThreadPool.StepUsesOne | src/runtime/gc-thread-pool.c:14-74 | inside the pool every step of caller or worker uses up one of the steps left in the round |
| ThreadPool.CallerReturns | src/runtime/gc-thread-pool.c:60-74 | the caller is inside for at most 5 steps per worker and 3 more, so with a step always possible it returns |

## Left out

- Hopscotch.Table.Insert: takes a bound on the number of doublings, because the loop in the source need not end; for every bound it says exactly when the key is taken within it.
- Hopscotch.Table.ResizeUp: takes the same bound; the table is unchanged if it is used up.
- Hopscotch.Table.Put: takes the same bound.
- Hopscotch.Run: takes the same bound for each addition, and stops at one that uses it up.
- Hopscotch.Table.Recarve: the columns are copied out of the old words instead of laid over them, so aliasing of old and new columns is not captured.
- Hopscotch tables without values, values of 1, 2 or 4 bytes, comparators other than identity, `hopscotch_get_ref`, the cache of freed storage, 32-bit overflow of sizes and counts, and the statistics.
- MarkPhase: slot layouts of the single object types; an object is a cons, a leaf, a sequence of slots, a code object with its simple-funs, or weak table storage. Marks in other spaces' headers and the order of the queue's blocks.
- MarkPhase.Marker.ScanPairs: the high-water mark of the storage vector, and the rehash flag that a moving collector sets during the same scan.
- Sweep: the tally of bytes freed, the calls per page, and the dead objects' names in the log.
- FullCollection.CollectFully: large objects freed page by page and fixed-size objects are not among the ranges; weak pointers, weak tables and finalizers are dealt with elsewhere, between the two phases.
- Cheney: sizes in words (a new-space address is the index of the copy), raw slots, weak pointers, the rehash flag set while scanning a table, and the swap of the semispaces. Slots of weak entries that waited are left to the pass that culls weak tables, as in the source.
- WeakCull.WeakTable.Cull: the high-water mark of the table and the choice of liveness test by weakness; the test is a parameter.
- Finalizers.Store.Scan: allocation of the conses pushed.
- FixedObjAlloc: the heuristics of the page search (which page is tried first, when the hint is updated); any page that may be chosen is covered. Memory is sequentially consistent.
- FixedObjSweep.Page.Sweep: write-protection flags. Pages with nothing in the collected generations are skipped in `FixedObjPage.PageSwept`.
- CodePool: the free lists of the two-level allocator (any free block may be chosen), generation masks of text pages, and the contents of code headers.
- Defrag: copying into temporary space, forwarding pointers, and moving code.
- Relocation.Space.FixObject: layouts packed in instance headers, packed symbol names and symbol hashes, self pointers of simple-funs, and fixups of instructions inside code; the kind of each object is given instead of read from its header.
- PageTable: generations, write protection and the free-page hints set while loading.
- Cards: the second copy of the mask in compiled code, and initial marks.
- Arena.ClaimsAreDisjoint: the thread-local region carved out of a claim by `handle_arena_alloc`; any request size is covered. Zero-filling, hiding, and the variant in which Lisp decides on extension.
- ThreadPool: creation of the threads and their number from the environment.
- The generational collector proper, mark-region, incremental compaction, saving of cores, signals and operating system interfaces.
