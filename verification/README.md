# Verified models of a database implementation course project

The repository holds the exercises of a course on database systems: a B+ tree over fixed-size pages, hash tables for a
parallel join, an external merge sort, a buffer manager, a catalogue that is saved to a page, and a small compiler for
arithmetic expressions. This project models their core in Dafny and proves what they promise. `dafny verify
dfyconfig.toml` checks everything.

| files | component |
|---|---|
| `Basics.dfy`, `Schedules.dfy` | optional values and a fact about sets, for all components; schedules of steps, for the hash tables |
| `EntriesHelper.dfy`, `BTreePages.dfy`, `BTreeFrames.dfy` | searches and shifts over entry arrays; inner nodes and leaves, as values and edited in place |
| `BTreeIndex.dfy`, `BTreeSteps.dfy`, `BTree.dfy` | the page structure as a whole; each operation as a function on it; the tree with insert, lookup, erase, range lookup |
| `BTreeSize.dfy`, `BTreeRange.dfy` | the space bound; the leaf chain and what range lookups miss |
| `BTreeShared.dfy`, `BTreeEffects.dfy` | the child that both halves of a split node hold; what each operation does to stored keys, to the leaf chain and behind the entries of a leaf |
| `BTreeRuns.dfy`, `BTreeHistories.dfy`, `BTreeCut.dfy` | whole runs against a finite map; what runs leave behind: the chain and the erased keys still seen; a run that cuts the chain |
| `Chains.dfy`, `ChainingHT.dfy`, `ChainingBloomHT.dfy`, `LinearProbingHT.dfy`, `MatrixHT.dfy`, `MatrixLookups.dfy`, `MatrixEnds.dfy` | the lock-free hash tables as state machines over single atomic accesses |
| `ExternalSort.dfy` | chunk phase, k-way merge, sortedness check |
| `PageCache.dfy`, `BufferManager.dfy` | the page cache with 2Q replacement, as a value and as objects |
| `SchemaSerializer.dfy` | the catalogue writer and reader |
| `CodeGeneration.dfy` | expression trees to single-assignment code |

## How the pieces are modelled

*B+ tree.* Pages live in a store from page id to page. The structure is not a tree of pages: splitting an inner node
copies its middle child into both halves, and slot 0 of the right half then has an empty key interval. The invariant
(`BTreeIndex.Good`) therefore gives each page that can be reached a span of keys, requires a child only where the span
that is left for it is not empty, and requires that two pages of one level never answer for the same key. Entry arrays
include the slot just behind the live entries, because the searches look at it. The methods of the tree are proved
against functions on the whole structure (`BTreeSteps.Inserted`, `BTreeSteps.Removed`), so the state in front of each
operation of a run is a function of the operations before it (`BTreeRuns.States`).

*Hash tables.* A build phase is a list of inserts; each has a program counter, and a schedule says which insert takes
the next atomic step (a read, a write or a compare-exchange). Statements about all schedules are statements about all
interleavings. Lookups come after the build phase, when every insert has returned; every insert does, after a number of
its own steps that is stated for each table (`InsertEnds`), so every build phase can come to its end (`AllReturn`).

*Buffer manager.* The manager with its frames and queues is proved against the cache as a value (`PageCache.Step`), so
every outcome of a run is determined by the events before it. One thing is left to chance, as in the code: a new frame's
state byte is not initialised, so its dirty flag starts with whatever the memory holds.

*External sort, buffer manager, catalogue, compiler.* Files are sequences of elements or of pages, and program text that
updates variables or objects is a method with the same loops and updates.

## Where the code does not do what it is meant to

Each of these has the condition under which the code is right, and an input or a run for the other side.

* The leaf searches include the slot behind the last entry. After erasing the largest key of a leaf this slot still
  shows the key: `lookup` finds it with the TID it had, a second `erase` moves memory by a negative length, and
  `insert` rejects it while the leaf has entries. A run answers like a map if and only if no operation of it meets
  such a key (`BTreeRuns.Run`); no run does that leaves erased keys alone (`BTreeRuns.NeverMisled`), and one that
  comes back to an erased key does (`BTreeHistories.ComingBack`). The slots behind the entries work like a stack: an
  erasure puts the largest key of the leaf in front, an accepted insert takes the first slot away, and only the first
  slot is looked at. So each operation's effect on which keys are seen is known exactly (`BTreeHistories.SeenAfter`);
  a key that a second erasure hid is seen again after an insert (`BTreeHistories.BackAgain`).
* A rejected `insert` leaves the page of the leaf fixed (`Tree.BTree.Insert`).
* `splitLeaf` gives the new leaf no successor, so splitting a leaf in the middle cuts the chain. All range lookups are
  complete if and only if no leaf's next pointer passes by a stored key (`BTreeRange.RangesCompleteIff`), and without
  erasures if and only if the chain is whole, which after any run it is if and only if no insert of the run split a leaf
  that had a successor (`BTreeHistories.CompleteIffNeverCut`, `BTreeHistories.RangesCompleteIffNoCut`). With
  capacities 2, inserting 10, 20, 15 and 12 and asking for 10 to 20 misses 20 (`BTreeCut.MissedKey`).
* The comment in `lookupRange` announces that reversed borders are swapped; the filter still uses the given borders, so
  the result is empty. It is right if and only if no stored key lies between the swapped borders
  (`BTreeRange.NoneReversed`, `Tree.BTree.LookupRange`).
* A failed compare-exchange of the matrix table stores what it saw in the expected value, which the next attempt uses.
  Two inserts of one key and a third insert into the same row can lose a key, so that lookups after the build phase
  return too few hits; nothing else can (`MatrixLookups.LookupsExactIffNoTriple`). The overflow chain has no such
  problem.
* A change of a page that is unfixed as clean comes back, at the next use of the page, if and only if the page is still
  cached then or was to be written out anyway (`PageCache.ChangeComesBackIff`; `Buffer.HiddenChange` shows both).
* A new page beyond the end of the file reads as zeros when it gets a free frame (`PageCache.NewPageIsZero`), but when
  it gets the frame of another page it shows that page's bytes (`PageCache.OutcomeOfFix`).
* Names in the catalogue end at their first NUL (`SchemaSerializer.KeptIffNulFree`).
* The reversed argument vector of `calculate` needs right operands to be visited first, which the language leaves open
  for every call. For one expression the arguments come out in order if and only if the right operand is visited first
  wherever both operands have variables (`CodeGeneration.BoundInOrder`); all calls are right if and only if that is so
  for all four operations (`CodeGeneration.OrderMatters`).

## Model

| member | source | states |
|---|---|---|
| EntriesHelper.SearchKeyPosition | src/database/btree/EntriesHelper.inl.cpp:54-71 | finds a key iff it is in the range, or all keys are smaller and the slot one past the range holds it |
| EntriesHelper.FindDirectionValue | src/database/btree/EntriesHelper.inl.cpp:77-99 | follows the child of the last separator not above the key, also when the bounds cross; fails iff the lower bound starts above the upper |
| EntriesHelper.ChildSlotUnique | src/database/btree/EntriesHelper.inl.cpp:77-99 | only one slot lies between a separator not above the key and one above it |
| EntriesHelper.FindPosition | src/database/btree/EntriesHelper.inl.cpp:103-118 | the scan starts at the first key that is not smaller, or at the one just before it |
| EntriesHelper.FindInsertPosition | src/database/btree/EntriesHelper.inl.cpp:122-150 | the position keeps the order; refused iff the key is in the range or shows in the slot behind it while the range is not empty |
| EntriesHelper.MoveEntriesToRight | src/database/btree/EntriesHelper.inl.cpp:153-159 | which entry each slot holds after the shift |
| EntriesHelper.MoveEntriesToLeft | src/database/btree/EntriesHelper.inl.cpp:162-168 | the same to the left; a start past the end is a negative length |
| BTreePages.InnerNode.GetNextNode | src/database/btree/InnerNode.inl.cpp:10-14 | the child to follow; an empty node is an error |
| BTreePages.Leaf.Lookup | src/database/btree/Leaf.inl.cpp:36-42 | a hit iff the key is an entry or shows behind the entries, and the value belongs to it |
| BTreePages.Leaf.Erase | src/database/btree/Leaf.inl.cpp:27-33 | takes out the key's entry and no other; error cases exactly |
| BTreePages.ChildForKey | src/database/btree/InnerNode.inl.cpp:10-14 | the followed child is live and it is the only one left the key |
| BTreePages.SeparatorPosition | src/database/btree/InnerNode.inl.cpp:22-32 | a separator strictly inside a gap never collides, whatever lies behind the live separators |
| BTreePages.InsertSeparator | src/database/btree/InnerNode.inl.cpp:22-32 | inserting it succeeds, keeps the node in order and divides that gap between its two pages |
| BTreePages.SplitNodeOk | src/database/btree/BTree.inl.cpp:88-106 | both halves of an inner node are in order with room for one more; the shared child is dead on the right |
| BTreePages.SplitOuterOk | src/database/btree/BTree.inl.cpp:130-149 | both halves of a leaf hold exactly the keys on their side, and show no key of theirs behind their entries |
| BTreePages.LeafInsertOk | src/database/btree/Leaf.inl.cpp:16-24 | a leaf with room takes a key iff it neither stores nor shows it, and then holds the map with the key |
| BTreePages.LeafEraseOk | src/database/btree/Leaf.inl.cpp:27-33 | the leaf then holds the map without the key, and shows the key iff it was the last entry |
| BTreeFrames.ShiftRight | src/database/btree/EntriesHelper.inl.cpp:153-159 | the array after the shift in place |
| BTreeFrames.ShiftLeft | src/database/btree/EntriesHelper.inl.cpp:162-168 | the array after the shift in place, or the fault |
| BTreeFrames.CopyEntries | src/database/btree/BTree.inl.cpp:101-103 | the target array after the copy, unchanged behind it |
| BTreeFrames.LeafFrame.InsertDefiniteFit | src/database/btree/Leaf.inl.cpp:16-24 | the edit in place does what the edit on the value does; a refusal leaves the page alone |
| BTreeFrames.LeafFrame.Erase | src/database/btree/Leaf.inl.cpp:27-33 | the same for erasing |
| BTreeFrames.LeafFrame.Split | src/database/btree/BTree.inl.cpp:138-149 | the two leaves after copying the upper half, and the separator |
| BTreeFrames.NodeFrame.InsertDefiniteFit | src/database/btree/InnerNode.inl.cpp:22-32 | the edit in place does what the edit on the value does |
| BTreeFrames.NodeFrame.Split | src/database/btree/BTree.inl.cpp:93-106 | the two nodes after copying from the middle child on, and the separator |
| BTreeIndex.RouteArrives | src/database/btree/BTree.inl.cpp:279-298 | routing from any page that answers for a key ends in the one leaf that does |
| BTreeIndex.OnlyParent | src/database/btree/BTree.inl.cpp:88-126 | no node but the parent has a live entry for the page that is split |
| BTreeIndex.SplitParent | src/database/btree/BTree.inl.cpp:108 | the separator goes into the parent without collision and the parent stays in order |
| BTreeIndex.InnerSplitKeeps | src/database/btree/BTree.inl.cpp:88-126 | splitting an inner node keeps every page in order; both halves are at least half full and have room |
| BTreeIndex.OuterSplitKeeps | src/database/btree/BTree.inl.cpp:130-168 | the same for a leaf |
| BTreeIndex.SplitGood | src/database/btree/BTree.inl.cpp:88-168 | a split keeps size, height bounds, root span and fill |
| BTreeIndex.InnerSplit | src/database/btree/BTree.inl.cpp:88-126 | splitInnerNode is possible, keeps the tree invariant and every leaf, and its chosen half answers for the key |
| BTreeIndex.OuterSplit | src/database/btree/BTree.inl.cpp:130-168 | splitLeaf is possible, keeps the tree invariant, and its chosen half answers for the key and does not show it |
| BTreeIndex.RootGrows | src/database/btree/BTree.inl.cpp:172-187 | an empty node above the root is ready to take the split of the old root |
| BTreeIndex.EraseStep | src/database/btree/BTree.inl.cpp:190-194 | erasing keeps the invariant; the key stays visible iff it was the largest of its leaf |
| BTreeIndex.InsertStep | src/database/btree/BTree.inl.cpp:81-83 | the leaf end of an insert keeps the invariant, or refuses exactly the stored and shown keys |
| BTreeIndex.GhostedWasErased | src/database/btree/Leaf.inl.cpp:36-42 | a key shown but not stored was erased before |
| BTreeIndex.DescendReady | src/database/btree/BTree.hpp:29-31 | below a node with room the child to visit can be split: invariants 1 and 2 of the header |
| BTreeIndex.Descend | src/database/btree/BTree.inl.cpp:290-294 | a search never follows a dead child |
| Tree.BTree.constructor | src/database/btree/BTree.inl.cpp:10-23 | the empty tree stands for the empty map |
| Tree.BTree.Lookup | src/database/btree/BTree.inl.cpp:251-254 | finds every stored key with its last TID, and otherwise exactly the keys shown behind their leaf, with the TID there |
| Tree.BTree.SearchForKey | src/database/btree/BTree.inl.cpp:279-298 | the same from any page on the key's path |
| Tree.BTree.FindLeaf | src/database/btree/BTree.inl.cpp:257-276 | ends at the leaf of the key |
| Tree.BTree.NextChild | src/database/btree/BTree.inl.cpp:51-52 | the child answers for the key and can be split when its parent has room |
| Tree.BTree.LookupRange | src/database/btree/BTree.inl.cpp:197-246 | the TIDs of the keys of the range that the chain reaches, in key order; all of them with a complete chain; none for reversed borders, right iff the swapped range holds no key |
| Tree.BTree.Erase | src/database/btree/BTree.inl.cpp:190-194 | removes a stored key and nothing else; error cases exactly; what stays visible |
| Tree.BTree.CreateEmptyNode | src/database/btree/BTree.inl.cpp:172-187 | the new root can take the split; the whole new state; pages fixed |
| Tree.BTree.SplitInnerNode | src/database/btree/BTree.inl.cpp:88-126 | the whole new state; keeps the invariant and all leaves, returns a half with room that answers for the key, and unfixes the other |
| Tree.BTree.SplitLeaf | src/database/btree/BTree.inl.cpp:130-168 | the same for leaves; the chain stays complete iff the last leaf was split |
| Tree.BTree.KeepHalf | src/database/btree/BTree.inl.cpp:114-125 | only the half that answers for the key stays fixed |
| Tree.BTree.DescendOneLevel | src/database/btree/BTree.inl.cpp:34-54 | one round: the next child is one level down, answers for the key and can be split; at most three pages fixed |
| Tree.BTree.NodeWithRoom | src/database/btree/BTree.inl.cpp:39-51 | at every child visit the node in hand has room, also when the root splits |
| Tree.BTree.LeafWithRoom | src/database/btree/BTree.inl.cpp:60-80 | the leaf in hand has room; when the chain is cut |
| Tree.BTree.InsertIntoLeaf | src/database/btree/BTree.inl.cpp:60-83 | the leaf end of an insert with all its effects |
| Tree.BTree.Insert | src/database/btree/BTree.inl.cpp:26-84 | stores a new key; refused exactly for stored and shown keys, with map and size unchanged though splits happened; pages unfixed as fixed on success, one left fixed on refusal, never more than three held; when the chain is cut; the descent ends |
| BTreeSize.SubtreeCount | src/database/btree/BTree.inl.cpp:93-149 | without erasures a page at level h holds at least (N/2)^h * (L/2) keys, counting live children only |
| BTreeSize.SizeBound | src/database/btree/BTree.inl.cpp:88-187 | without erasures a tree of height h >= 1 holds at least 2 * (N/2)^(h-1) * (L/2) keys |
| BTreeRange.NextLeaf | src/database/btree/BTree.inl.cpp:137-141 | the next pointer leads strictly to the right |
| BTreeRange.ScanLeaf | src/database/btree/BTree.inl.cpp:214-220 | the TIDs of exactly the keys of the range in one leaf, in order |
| BTreeRange.TidsUnique | src/database/btree/BTree.inl.cpp:213-246 | key order leaves no choice in what a scan of given keys returns |
| BTreeRange.ChainRises | src/database/btree/BTree.inl.cpp:222-233 | keys further along the chain are larger |
| BTreeRange.WholeChain | src/database/btree/BTree.inl.cpp:213-241 | a scan to the end of the chain passes every leaf on it |
| BTreeRange.ScanContinues | src/database/btree/BTree.inl.cpp:222-233 | going to the next leaf adds exactly its keys and keeps the order |
| BTreeRange.ScanResult | src/database/btree/BTree.inl.cpp:213-246 | the finished scan has exactly the keys of the range on the chain |
| BTreeRange.CompleteChainReaches | src/database/btree/BTree.inl.cpp:213-241 | a complete chain reaches the leaf of every larger key |
| BTreeRange.OuterSplitChain | src/database/btree/BTree.inl.cpp:138-147 | a leaf split keeps a complete chain complete iff the leaf was the last |
| BTreeRange.AscendingKeepsChain | src/database/btree/BTree.inl.cpp:138-147 | inserting above all keys never cuts the chain of a tree without erasures |
| BTreeRange.RangesCompleteIff | src/database/btree/BTree.inl.cpp:197-246 | all range lookups find all stored keys of their ranges iff no leaf's next pointer passes by a stored key, erasures or not |
| BTreeRange.LinkedIffComplete | src/database/btree/BTree.inl.cpp:138-147 | without erasures no key is passed by iff every leaf points to its right neighbour |
| BTreeRange.RangesCompleteIffNeverCut | src/database/btree/BTree.inl.cpp:197-246 | without erasures all range lookups are complete iff the chain is |
| BTreeRange.NoneReversed | src/database/btree/BTree.inl.cpp:197-209 | reversed borders give nothing, which is right iff the swapped range holds no stored key |
| BTreeSteps.InnerHalvesOk | src/database/btree/BTree.inl.cpp:88-126 | the state after splitting an inner node, as a function, is in order with the same leaves, and the chosen half has room and answers for the key |
| BTreeSteps.OuterHalvesOk | src/database/btree/BTree.inl.cpp:130-168 | the same for a leaf |
| BTreeSteps.GrownOk | src/database/btree/BTree.inl.cpp:172-187 | the state with a new root has the same leaves and is ready for the split of the old root, for every key |
| BTreeSteps.InsertFromOk | src/database/btree/BTree.inl.cpp:34-83 | the state after the rest of an insert, as a function, is in order and has the same erased keys |
| BTreeSteps.RemovedGood | src/database/btree/BTree.inl.cpp:190-194 | the state after an erasure, as a function, is in order, and its erased keys are one more iff the key was stored |
| BTreeCut.MissedKey | src/database/btree/BTree.inl.cpp:138-147 | a run whose third split cuts the chain: 20 is stored, lies in the range asked for, and is not found |
| BTreeCut.MissedState | src/database/btree/BTree.inl.cpp:138-147 | the tree this run leads to, and that the range is not found completely in it |
| BTreeRuns.Perform | src/database/btree/BTree.inl.cpp:26-84 | the whole new state and the answer in every case; the answer is the map's iff no erased key shown behind its leaf misleads the operation |
| BTreeRuns.Run | src/database/btree/BTree.inl.cpp:26-304 | any run at any capacity answers like the map iff no operation of it is misled in the state that the operations before it lead to, and then the size is the map's; and every answer, misled or not |
| BTreeRuns.NeverMisled | src/database/btree/BTree.inl.cpp:26-304 | no operation is misled in a run that leaves erased keys alone |
| BTreeHistories.ComingBack | src/database/btree/BTree.inl.cpp:190-194 | a run that does: the erased key is found with its old TID 20, its erasure faults, its insert is refused |
| BTreeRuns.NodeSplitKeepsRoutes | src/database/btree/BTree.inl.cpp:88-126 | in the tree that splitting an inner node gives, every key has the leaf it had, although both halves hold the middle child; it is dead in the right one |
| BTreeRuns.RootSplitKeepsRoutes | src/database/btree/BTree.inl.cpp:42-50 | the same for splitting the root below a new one |
| BTreeRuns.SharedChildrenStayDead | src/database/btree/BTree.inl.cpp:88-126 | in every tree that any operations lead to, slot 0 of an inner node is alive iff the node has no lower bound, and no search in another node follows it |
| BTreeShared.InnerHalvesStart | src/database/btree/BTree.inl.cpp:88-126 | an inner split keeps the first separator of every node with a lower bound equal to that bound |
| BTreeShared.OuterHalvesStart | src/database/btree/BTree.inl.cpp:130-168 | so does a leaf split |
| BTreeShared.InsertFromStart | src/database/btree/BTree.inl.cpp:34-83 | so does a whole insert |
| BTreeEffects.InsertedEffect | src/database/btree/BTree.inl.cpp:26-84 | an insert stores the key unless it is refused, and a complete chain stays complete iff it does not split a leaf with a successor |
| BTreeEffects.InsertedBreaks | src/database/btree/BTree.inl.cpp:130-168 | splitting a leaf with a successor breaks the chain, and no insert mends it |
| BTreeEffects.InsertedShows | src/database/btree/Leaf.inl.cpp:16-24 | an accepted insert takes away the first slot behind the entries of its leaf; what shows in later slots moves up, in other leaves it stays |
| BTreeEffects.RemovedShows | src/database/btree/Leaf.inl.cpp:27-33 | an erasure puts the largest key of its leaf into the first slot behind the entries; what shows there moves back |
| BTreeHistories.SeenAfter | src/database/btree/Leaf.inl.cpp:16-42 | for every operation, key and TID: whether the key is seen behind its leaf with this TID afterwards, iff |
| BTreeHistories.BackAgain | src/database/btree/Leaf.inl.cpp:16-42 | a run where an erased key is seen with TID 40, then hidden by another erasure, then seen with TID 40 again after an insert |
| BTreeHistories.CompleteIffNeverCut | src/database/btree/BTree.inl.cpp:138-147 | after any run the chain is complete iff no insert of the run split a leaf that had a successor |
| BTreeHistories.RangesCompleteIffNoCut | src/database/btree/BTree.inl.cpp:197-246 | after any run without erasures all range lookups are complete iff no insert of it split such a leaf |
| BTreeHistories.RisingComplete | src/database/btree/BTree.inl.cpp:197-246 | after inserts in increasing order the chain is complete, just the inserted keys are stored, and all range lookups find all of them |
| BTreeHistories.PreviousAlwaysLeads | src/database/btree/BTree.inl.cpp:137-147 | after any run every previous pointer leads to a leaf on the left, and only the leftmost leaf has none |
| BTreeHistories.ScanAfterAscending | src/database/btree/BTree.inl.cpp:197-246 | after inserting increasing keys a range lookup returns exactly the TIDs of the range in key order |
| Chains.Acyclic | src/assignment6_parallelhashjoin/ChainingHT.cpp:39-50 | a chain that ends in null meets no entry twice |
| Chains.ChainCounts | src/assignment6_parallelhashjoin/ChainingHT.cpp:39-50 | counting along a bucket's chain gives the multiplicity of the key among the finished inserts |
| ChainingHT.StepInv | src/assignment6_parallelhashjoin/ChainingHT.cpp:52-62 | every atomic step keeps each bucket a chain of exactly its finished inserts, each once |
| ChainingHT.RunInv | src/assignment6_parallelhashjoin/ChainingHT.cpp:52-62 | so it is in every interleaving, and no chain has a cycle |
| ChainingHT.InsertEnds | src/assignment6_parallelhashjoin/ChainingHT.cpp:52-62 | in every interleaving an insert has returned after three of its own steps for each insert: a swap fails only when another one has returned since the head was read |
| ChainingHT.AllReturn | src/assignment6_parallelhashjoin/ChainingHT.cpp:52-62 | so every build phase has a schedule after which all inserts have returned |
| ChainingHT.Lookup | src/assignment6_parallelhashjoin/ChainingHT.cpp:39-50 | after the build phase a lookup returns the multiplicity of the key |
| ChainingBloomHT.ControlHashInTag | src/assignment6_parallelhashjoin/ChainingBloomHT.cpp:38-40 | a control hash does not touch the pointer bits |
| ChainingBloomHT.ControlHashTells | src/assignment6_parallelhashjoin/ChainingBloomHT.cpp:38-40 | two control hashes differ iff the keys differ modulo 16 |
| ChainingBloomHT.Pack | src/assignment6_parallelhashjoin/ChainingBloomHT.cpp:84-89 | packing address, control hash and old tag loses none of them |
| ChainingBloomHT.TagsCover | src/assignment6_parallelhashjoin/ChainingBloomHT.cpp:61-64 | every key on a chain has its control hash in the or of the chain |
| ChainingBloomHT.StepInv | src/assignment6_parallelhashjoin/ChainingBloomHT.cpp:76-107 | every atomic step keeps the pointer part a plain chain of the finished inserts and the tag the or of their hashes |
| ChainingBloomHT.RunInv | src/assignment6_parallelhashjoin/ChainingBloomHT.cpp:76-107 | so it is in every interleaving |
| ChainingBloomHT.InsertEnds | src/assignment6_parallelhashjoin/ChainingBloomHT.cpp:76-107 | in every interleaving an insert has returned after three of its own steps for each insert |
| ChainingBloomHT.AllReturn | src/assignment6_parallelhashjoin/ChainingBloomHT.cpp:76-107 | so every build phase has a schedule after which all inserts have returned |
| ChainingBloomHT.EarlyExit | src/assignment6_parallelhashjoin/ChainingBloomHT.cpp:61-64 | returning 0 on a missing control hash never loses a hit |
| ChainingBloomHT.Lookup | src/assignment6_parallelhashjoin/ChainingBloomHT.cpp:55-74 | after the build phase a lookup returns the multiplicity of the key |
| LinearProbingHT.StepInv | src/assignment6_parallelhashjoin/LinearProbingHT.cpp:79-95 | every atomic step keeps: one slot per insert, a slot marked iff owned, all slots from a key's home to its slot marked |
| LinearProbingHT.RunInv | src/assignment6_parallelhashjoin/LinearProbingHT.cpp:79-95 | so it is in every interleaving |
| LinearProbingHT.NeverFull | src/assignment6_parallelhashjoin/LinearProbingHT.cpp:81-83 | with at most buildSize inserts a slot is always free |
| LinearProbingHT.NeverWraps | src/assignment6_parallelhashjoin/LinearProbingHT.cpp:84-94 | an insert that goes on gets one slot further from its home each time and never round |
| LinearProbingHT.InsertEnds | src/assignment6_parallelhashjoin/LinearProbingHT.cpp:79-95 | in every interleaving an insert has returned after ten of its own steps for each of buildSize, and two more |
| LinearProbingHT.AllReturn | src/assignment6_parallelhashjoin/LinearProbingHT.cpp:79-95 | so every build phase has a schedule after which all inserts have returned |
| LinearProbingHT.Reached | src/assignment6_parallelhashjoin/LinearProbingHT.cpp:46-70 | every slot with the key lies before the first unmarked slot behind the key's home |
| LinearProbingHT.Lookup | src/assignment6_parallelhashjoin/LinearProbingHT.cpp:46-70 | after the build phase the cyclic lookup returns the multiplicity of the key |
| MatrixHT.OverwriteNeedsTriple | src/assignment6_parallelhashjoin/MatrixHT.cpp:95-103 | a column is overwritten only after three inserts into a row, two of them with one key |
| MatrixHT.StepInv | src/assignment6_parallelhashjoin/MatrixHT.cpp:81-118 | every other step keeps: columns fill as a prefix, the chain starts after them, the row stores exactly its finished inserts |
| MatrixHT.RunInv | src/assignment6_parallelhashjoin/MatrixHT.cpp:81-118 | without such a triple this holds in every interleaving |
| MatrixHT.TripleLoses | src/assignment6_parallelhashjoin/MatrixHT.cpp:95-103 | with one there is an interleaving that loses a key: the cells, the chain and the program counters it leads to |
| MatrixHT.ExactIffNoTriple | src/assignment6_parallelhashjoin/MatrixHT.cpp:81-118 | in all reachable states every row stores exactly the keys of its finished inserts iff no row gets two equal keys and a third insert |
| MatrixHT.SequentialInv | src/assignment6_parallelhashjoin/MatrixHT.cpp:81-118 | inserts one after the other lose no key, duplicates or not |
| MatrixEnds.InsertEnds | src/assignment6_parallelhashjoin/MatrixHT.cpp:81-118 | in every interleaving, overwriting or not, an insert has returned after five of its own steps for each column and three for each insert |
| MatrixEnds.AllReturn | src/assignment6_parallelhashjoin/MatrixHT.cpp:81-118 | so every build phase has a schedule after which all inserts have returned |
| MatrixLookups.CountChain | src/assignment6_parallelhashjoin/MatrixHT.cpp:67-76 | the walk over the overflow chain counts the key on it |
| MatrixLookups.RunFormed | src/assignment6_parallelhashjoin/MatrixHT.cpp:81-118 | in every interleaving, lossy or not, columns fill as a prefix and the chain ends and starts after them |
| MatrixLookups.Lookup | src/assignment6_parallelhashjoin/MatrixHT.cpp:53-79 | in any reachable state a lookup returns what columns and chain show; after a build phase without such a triple, or with inserts one after the other, the multiplicity of the key |
| MatrixLookups.TripleHides | src/assignment6_parallelhashjoin/MatrixHT.cpp:95-103 | with such a triple there is an interleaving after which all inserts have returned and a lookup of the lost key returns one too few |
| MatrixLookups.LookupsExactIffNoTriple | src/assignment6_parallelhashjoin/MatrixHT.cpp:53-118 | lookups after the build phase return the multiplicity of every key in every interleaving iff no row gets two equal keys and a third insert |
| ExternalSort.DivCeilRoundsUp | src/assignment1_externalsort/util.cpp:7-9 | the quotient rounded up |
| ExternalSort.ChunksSuffice | src/assignment1_externalsort/external_sort.cpp:42-47 | the chunks hold all elements and none is needless |
| ExternalSort.ChunkPhase | src/assignment1_externalsort/external_sort.cpp:66-109 | sorted non-empty chunks with exactly the first n elements, none above the memory; nothing iff the input is too short |
| ExternalSort.BuffersFit | src/assignment1_externalsort/external_sort.cpp:120-121 | all input buffers and the output buffer together fit the memory, and larger ones would not |
| ExternalSort.FillBuffers | src/assignment1_externalsort/external_sort.cpp:120-137 | the queue starts with every chunk at its first element, and no buffer is above its size |
| ExternalSort.Advance | src/assignment1_externalsort/external_sort.cpp:144-169 | the next element of a chunk is in its buffer, through refills, until the chunk is used up, and no buffer is above its size |
| ExternalSort.TopIsLeast | src/assignment1_externalsort/external_sort.cpp:140-143 | the top of the queue is no larger than anything left in any chunk |
| ExternalSort.QueueStep | src/assignment1_externalsort/external_sort.cpp:170-172 | the queue keeps exactly the chunks with elements left, each once |
| ExternalSort.Pop | src/assignment1_externalsort/external_sort.cpp:141-172 | one round takes the least element left and moves its chunk on |
| ExternalSort.MergeStep | src/assignment1_externalsort/external_sort.cpp:140-145 | the merged part stays sorted, nothing is lost, and less is left |
| ExternalSort.WriteOut | src/assignment1_externalsort/external_sort.cpp:145-151 | flushing the output buffer when it is full, and only then, keeps the output in order |
| ExternalSort.Merge | src/assignment1_externalsort/external_sort.cpp:114-178 | the output is sorted and has the elements of all chunks, for every buffer size |
| ExternalSort.SortedOnce | src/assignment1_externalsort/external_sort.cpp:41-192 | a sorted permutation is unique |
| ExternalSort.Run | src/assignment1_externalsort/external_sort.cpp:41-192 | the output is the first n elements in order, whatever the memory size; nothing iff the input is too short |
| ExternalSort.CheckBuffer | src/assignment1_externalsort/sorted_check.cpp:38-47 | one buffer continues the order iff no element is below the one before it, across buffers too |
| ExternalSort.CheckSorting | src/assignment1_externalsort/sorted_check.cpp:16-51 | the buffered check decides sortedness; when a short read aborts it |
| ExternalSort.SortAndCheck | src/assignment1_externalsort/external_sort.cpp:41-192 | the check accepts what the sort wrote |
| Buffer.TwoQList.Push | src/database/buffer/TwoQList.cpp:8-22 | the queue the used flag names, at its end |
| Buffer.TwoQList.Pop | src/database/buffer/TwoQList.cpp:24-45 | head of FIFO, then head of LRU, else none |
| Buffer.TwoQList.Remove | src/database/buffer/TwoQList.cpp:47-69 | leaves the queue the used flag names |
| Buffer.TakenOut | src/database/buffer/TwoQList.cpp:47-69 | a frame taken out of its queue waits in neither, and all others keep their order |
| PageCache.WrittenPages | src/database/buffer/PageIOUtil.cpp:58-91 | a page written leaves all others; the pages of a hole before it read as 4096 zero bytes |
| Buffer.BufferManager.constructor | src/database/buffer/BufferManager.cpp:18-23 | the empty cache, with free pages of 4096 zero bytes |
| Buffer.BufferManager.GetPageInMemoryOrNull | src/database/buffer/BufferManager.cpp:199-201 | the resident frame or null; the null entry left behind changes nothing |
| Buffer.BufferManager.FixResident | src/database/buffer/BufferManager.cpp:74-84 | the frame leaves its queue and counts as used |
| Buffer.BufferManager.CreateFrame | src/database/buffer/BufferManager.cpp:203-218 | one free page less, one frame more, every invariant kept |
| Buffer.BufferManager.PopFrame | src/database/buffer/BufferManager.cpp:100-107 | the first of FIFO then LRU; none iff every frame is pinned |
| Buffer.BufferManager.WriteOut | src/database/buffer/BufferManager.cpp:109-117 | the page is in the file and the frame is clean |
| Buffer.BufferManager.Reinitialize | src/database/buffer/BufferManager.cpp:220-227 | the frame belongs to the new page only |
| Buffer.BufferManager.LoadFromDiskIfExists | src/database/buffer/BufferManager.cpp:233-235 | the file's bytes, or the old ones beyond its end |
| Buffer.BufferManager.FixAbsent | src/database/buffer/BufferManager.cpp:85-148 | which frame is taken, what is written out, what is loaded; fails iff no page is free and all are pinned |
| Buffer.BufferManager.FixPage | src/database/buffer/BufferManager.cpp:68-150 | the bytes of the last dirty unfix come back; other pinned frames are left alone; fails iff absent, nothing free and all pinned |
| Buffer.BufferManager.Release | src/database/buffer/BufferManager.cpp:173-177 | the frame waits at the end of the queue its used flag names |
| Buffer.BufferManager.UnfixPage | src/database/buffer/BufferManager.cpp:158-178 | what the page is to hold from now on |
| Buffer.BufferManager.FullIff | src/database/buffer/BufferManager.cpp:85-107 | a page that is not pinned cannot be fixed iff as many pages are pinned as there are frames |
| PageCache.StepOk | src/database/buffer/BufferManager.cpp:68-178 | every event keeps each cached page that is not pinned once in the queue its used flag names |
| PageCache.KeptUnused | src/database/buffer/BufferManager.cpp:85-148 | a page that nobody uses stays as it was, or is given up once: then the file has its bytes if they were to be written out, and otherwise what it had before |
| PageCache.FixedAfterwards | src/database/buffer/BufferManager.cpp:68-178 | in every run, exactly what a page holds when it is fixed again after it was given back |
| PageCache.NewPageIsZero | src/database/buffer/BufferManager.cpp:182-191 | in every run a page beyond the end of the file that gets a free frame has 4096 zero bytes |
| PageCache.OutcomeOfFix | src/database/buffer/BufferManager.cpp:85-148 | what fixing a page gives in every state; a new page in a used frame shows what is left there |
| PageCache.ChangeComesBackIff | src/database/buffer/BufferManager.cpp:158-168 | a change unfixed as clean comes back iff the page is still cached or was to be written out anyway |
| Buffer.BufferManager.FixShown | src/database/buffer/BufferManager.cpp:68-150 | fixing a page does to frames, queues, page table and file what the cache as a value does, and fails iff it does |
| Buffer.Replay | src/database/buffer/BufferManager.cpp:68-178 | any run of fixing, filling and unfixing has just the outcomes of the cache as a value; fixing fails iff every frame is pinned, and the bytes last unfixed dirty, or those of the file, come back |
| Buffer.HiddenChange | src/database/buffer/BufferManager.cpp:158-168 | two runs: a change unfixed as clean comes back while the page stays in its frame; when the clean frame was given to another page in between, the last dirty bytes do |
| SchemaSerializer.WordOfBytes | src/database/relations/SchemaSerializer.cpp:47-51 | a word stored low byte first is read back |
| SchemaSerializer.SizeOfSchema | src/database/relations/SchemaSerializer.cpp:212-233 | the computed size is the length of the layout |
| SchemaSerializer.AppendName | src/database/relations/SchemaSerializer.cpp:147-154 | strcpy fills the name's space up to its first NUL, and wholly if it has none |
| SchemaSerializer.WriteAttribute | src/database/relations/SchemaSerializer.cpp:161-187 | the bytes used and the attribute they lay out |
| SchemaSerializer.WriteRelation | src/database/relations/SchemaSerializer.cpp:144-199 | the same for a relation with its attributes and keys |
| SchemaSerializer.WriteSchema | src/database/relations/SchemaSerializer.cpp:130-209 | length word and layout in just the counted bytes, every number, name and flag at its offset, the rest of the page unchanged, never the size complaint |
| SchemaSerializer.SchemaLies | src/database/relations/SchemaSerializer.cpp:138-199 | the layout has every number low byte first, every name and every flag byte at the offset the format gives it |
| SchemaSerializer.AttributeLies | src/database/relations/SchemaSerializer.cpp:161-187 | the bytes of an attribute by offset |
| SchemaSerializer.ReadAttribute | src/database/relations/SchemaSerializer.cpp:81-112 | reads an attribute and leaves the rest |
| SchemaSerializer.ReadRelation | src/database/relations/SchemaSerializer.cpp:64-124 | reads a relation of any size and leaves the rest |
| SchemaSerializer.ReadSchema | src/database/relations/SchemaSerializer.cpp:45-127 | reads back any layout, each name up to its first NUL |
| SchemaSerializer.StoredIfNulFree | src/database/relations/SchemaSerializer.cpp:152-169 | without NUL in names the stored schema is the given one |
| SchemaSerializer.KeptIffNulFree | src/database/relations/SchemaSerializer.cpp:68-92 | cutting names changes nothing iff none holds a NUL |
| SchemaSerializer.SaveAndLoad | src/database/relations/SchemaSerializer.cpp:32-43 | the schema comes back iff no name holds a NUL |
| CodeGeneration.WrapsAround | src/assignment7_codegeneration/Node.cpp:43-57 | results wrap around in 64 bits: the only number in range with the same remainder |
| CodeGeneration.QuotientTruncates | src/assignment7_codegeneration/Node.cpp:59-63 | signed division rounds towards zero |
| CodeGeneration.QuotientFits | src/assignment7_codegeneration/Node.cpp:59-63 | the quotient is in range but for the smallest number by -1 |
| CodeGeneration.ApplyIs | src/assignment7_codegeneration/Node.cpp:43-63 | what each operation gives in whole numbers: sum, difference and product up to multiples of 2^64, the quotient by its remainder, nothing for a zero divisor or the smallest number by -1 |
| CodeGeneration.EvalMeans | src/assignment7_codegeneration/Node.cpp:33-65 | evaluating a tree gives the one value that these results combine to |
| CodeGeneration.EvalIsNumber | src/assignment7_codegeneration/Node.cpp:33-65 | without divisions that value is the tree's value in unbounded integers up to a multiple of 2^64 |
| CodeGeneration.Calculate | src/assignment7_codegeneration/Node.cpp:33-65 | the block and the cursor after generating code in place |
| CodeGeneration.Compiled | src/assignment7_codegeneration/Node.cpp:33-65 | after any code and at any cursor the generated code is well formed and yields the tree's value, or stops where it has none, for any order of visits chosen per operation |
| CodeGeneration.CreateArithmeticFunction | src/assignment7_codegeneration/arithmetic_expressions.cpp:9-30 | a valid function that uses up its parameters and computes the tree under the binding the visits give |
| CodeGeneration.CalculateExpression | src/assignment7_codegeneration/arithmetic_expressions.cpp:32-49 | the tree's value under the binding the visits give; with visits from right to left the p-th variable has the p-th argument, and without divisions the result is the unbounded value up to a multiple of 2^64 |
| CodeGeneration.BoundInOrder | src/assignment7_codegeneration/arithmetic_expressions.cpp:38-39 | the p-th variable from the left gets the p-th argument, for all p, iff the right operand is visited first wherever both operands have variables |
| CodeGeneration.OrderMatters | src/assignment7_codegeneration/arithmetic_expressions.cpp:38-39 | all compiled functions called with their arguments reversed give the value of their tree iff every operation has its right operand visited first |

## Left out

- Tree.BTree.LookupRange: does not track which pages it fixes.
- Tree.BTree.Lookup: does not track which pages it fixes; neither do `FindLeaf` and `Erase`.
- Buffer.BufferManager.FixPage: one thread, one segment, and no page pinned twice at a time; the page table is keyed by page id alone and every unfix queues the frame, so more than that has no guarantee.
- ExternalSort.Run: needs at least one element (for none, the chunk count wraps around in the code), a positive memory size and room for one element a buffer.
- CodeGeneration.CalculateExpression: needs as many arguments as variables; undefined divisions are an explicit failure.
- SchemaSerializer.ReadSchema: needs data that was written by the serializer, as the code does; the byte it sets one past each name buffer is not modelled.
- Keys of the tree are integers that stand for ranks in the order of the comparator, with which the `<=` of `lookupRange` is taken to agree.
- Memory that was never written does not compare equal to a key; this covers the slot behind a full leaf and the unset entries of new pages.
- Page ids, sizes and counts are unbounded, so the narrowing of a page id to `int` in `findFrameForKey` and 32-bit read sizes are not modelled.
- The tree works on page values in a store, not through the buffer manager; that `erase` edits a page after unfixing it clean has no effect here. The edits in place are proved separately and the tree does not call them.
- The hash function is an arbitrary total function, and memory accesses are sequentially consistent as the compare-exchanges ask for.
- The matrix is modelled by rows instead of one flat array, without the all-ones key, which the code reserves.
- `LinearProbingHT` without clearing its entries, and lookups during the build phase.
- The locking hash tables and the join operators built on them.
- `std::sort`, `std::lower_bound` and `std::priority_queue` are taken by their contracts; ties in the queue are broken arbitrarily in the code and towards the front here.
- The destructor of the buffer manager, whose write-back is commented out: what is dirty then does not reach the file.
- I/O errors, temporary files and file descriptors; files are sequences and a segment file holds whole pages.
- Locks, and buffer managers shared by threads.
- `loadSchema` and `saveSchema` copy the frame they fix; only the page bytes are modelled.
- LLVM itself, names of values, printing, and the Fibonacci function.
- Slotted pages and segments, whose code does not keep its own invariants.
- Selection, projection, printing, the register type, visualisation, generators and the schema parser.
