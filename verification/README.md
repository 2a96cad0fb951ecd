# Hypertree and its neighbours, verified

A Dafny model of the code that keeps an on-chain order book in one flat array: the red-black
tree with parent links (`lib/src/red_black_tree.rs`), the linked list and the in-place
conversion of a tree into one (`lib/src/linked_list.rs`), left-leaning insertion
(`lib/src/llrb.rs`), the free list (`lib/src/free_list.rs`), the iterator they share
(`lib/src/hypertree.rs`) — and of three pieces of the services around it: the admission
controller, the transaction packer and the volume index.

`dafny verify dfyconfig.toml` checks the whole project.

## How it is built

Three layers carry the tree.

1. **Values.** `Trees` has trees and zippers (the path from a node to the root). `Insertion`,
   `Removal` and `LeftLeaning` say what the algorithms do to them, one round of repair at a
   time, and prove order and balance. The repair of a removal works on "everything is balanced,
   except that the subtree here is one black node short" (`Removal.OneShort`). `Caching` adds
   insertion with a cached node that need not be the maximum, and what becomes of the cache.
2. **Blocks.** `Links` says what it means that an array holds a tree (`Stores`), or a tree
   seen from one of its nodes (`StoresAt`): every header field of every node, every slot once,
   and nothing about other blocks. Rotations, splices and recolourings are functions on
   (array, root link); `Splicing`, `SwapSplice`, `Repairs` and
   `LeaningBlocks` prove what each does to the tree.
3. **The mutable code.** `NodeOps`, `NodeSwaps`, `Traversal` and the classes `RedBlackTree`, `LLRB`,
   `LinkedList`, `FreeList` write the shared `array<Slot>` step by step as the sources do. Each
   method is proved to produce exactly the array the second layer describes.

A `Payload` has a key it is ordered by and a nonce that only equality sees, so equality is
finer than the order, as in the tests at `lib/src/red_black_tree.rs:3300-3324`. Equal keys may end
up on either side of each other in the tree; the invariant is that the in-order sequence never
decreases.

Links are block numbers; the validators, which check bounds, alignment and overlap, work on byte
offsets instead, over buffers in which nodes can be read from any byte (`Validation`,
`ListValidation`). `Acceptance.Renders` connects the two, and `ReachableTrees` tells what the tree
validator accepts a second time, from the links alone.

`Arenas` puts any number of trees, a list and the pool of free blocks into one array, and
`ArenaRuns` runs any requests against it, next to a model on sequences.

## Where code and documentation differ

- `validate_red_black_tree` rejects trees the library itself builds: with three equal keys,
  insertion leaves a right child equal to its parent. `Acceptance.ThreeEqualKeysRejected` is
  that case and `Acceptance.BuiltTreeAccepted` the exact condition.
- The cached maximum is documented as the largest node, but the library's own tests insert with
  a stale one. That is right as long as the cached node has a right subtree; one such insertion
  can cache a node that has none and is not the maximum, and the next can then append out of
  order. `StaleCaches.MisplacedAppend` is such a run; `Caching.CachedOrder`, `Caching.CacheExact`
  and `Caching.CacheUsable` are the exact conditions, and
  `RedBlackTrees.RedBlackTree.InsertWithPayloadType` states them for the array.
- The left-leaning tree is documented to keep a NIL cache on a tree that is not empty as NIL
  (`lib/src/llrb.rs:20-23`), but insertion then reads the block at NIL, beyond the array, after
  the tree has been changed. `LLRBs.LLRB.Insert` completes exactly when the tree was empty or a
  node is cached.
- The comment on `add` in the volume index says a negative amount never reorders; so it can
  leave the order wrong. `VolumeIndexes.FallenTraderStays` is such a run, and
  `VolumeIndexes.TraderVolumeIndex.Add` says exactly when it happens. Rebuilding from entries
  that name a trader twice breaks the index, as in `VolumeIndexes.RebuiltTwice`;
  `VolumeIndexes.TraderVolumeIndex.Rebuild` has the condition.

## Model

| member | source | states |
|---|---|---|
| `RedBlackTrees.RedBlackTree.InsertWithPayloadType` | lib/src/red_black_tree.rs:1231-1296 | on the real array and with any node of the tree cached: the tree is stored and stays balanced, only its blocks and the new one are written, the keys stay in order exactly when the new leaf lands in place, the cache comes out exact exactly when the stated condition on the old one holds, and repair takes at most b + 1 rounds, where 2^b is at most the number of nodes plus one; with a usable cache a valid tree stays valid and the new entry stands after everything smaller and before everything else |
| `RedBlackTrees.RedBlackTree.RemoveByIndex` | lib/src/red_black_tree.rs:1185-1225 | removing any node leaves a valid tree whose sequence is the old one without that node, after at most b + 2 rounds of repair; NIL changes nothing; the cached maximum stays exact |
| `RedBlackTrees.RedBlackTree.LinkAnywhere` | lib/src/red_black_tree.rs:1252-1272 | for any cached node: the leaf hangs to its right when it is smaller and has no right child, at the end of a full descent otherwise, and the cache moves to the leaf exactly when the cached node is smaller |
| `RedBlackTrees.RedBlackTree.LinkNewLeaf` | lib/src/red_black_tree.rs:1548-1574 | the descent, equal keys to the left, changes exactly the one child link of the leaf's parent |
| `RedBlackTrees.RedBlackTree.InsertFix` | lib/src/red_black_tree.rs:1583-1670 | one round of insertion repair writes exactly the array of the repaired tree and returns the node to go on with |
| `RedBlackTrees.RedBlackTree.RemoveFix` | lib/src/red_black_tree.rs:1463-1544 | one round of removal repair writes exactly the array of the repaired tree and returns the pair to go on with |
| `RedBlackTrees.RedBlackTree.RunRemoveFix` | lib/src/red_black_tree.rs:1217-1224 | the repair loop ends, by black depth and then by the sibling's colour, with the repaired tree, after at most two rounds more than black nodes above it |
| `RedBlackTrees.RedBlackTree.RunInsertFix` | lib/src/red_black_tree.rs:1285-1292 | the repair loop ends, by depth, with the repaired tree, after at most one round more than half the depth |
| `RedBlackTrees.RedBlackTree.RemoveInternalNode` | lib/src/red_black_tree.rs:1339-1395 | the successor is transplanted in one go, and where repair has to start comes out right |
| `RedBlackTrees.RedBlackTree.Detach` | lib/src/red_black_tree.rs:1203-1207 | taking a node out leaves the array holding the tree with a hole at the position to repair |
| `Caching.CachedKeeps` | lib/src/red_black_tree.rs:1231-1296 | whatever node is cached, insertion keeps balance, a black root and a cache in the tree; it keeps the order exactly when the leaf lands in place, and with a usable cache it is the plain insertion |
| `Caching.CachedOrder` | lib/src/red_black_tree.rs:1252-1272 | with any cached node the keys stay in order, and the entry stands at its stable place, exactly when nothing after the place of an append is smaller than the new key |
| `Caching.CacheExact` | lib/src/red_black_tree.rs:1253-1259 | after an insertion the cache is the maximum exactly when it was before, or when it was a node with a right child and the new key is larger than all |
| `Caching.CacheUsable` | lib/src/red_black_tree.rs:1832-1885 | from any cached node, when the next insertion can rely on the cache again: if it is exact, if the new node was just given a right child, or if it was kept and has one |
| `Caching.LandingIsDescent` | lib/src/red_black_tree.rs:1252-1272 | with a usable cache the append and the full descent end at the same place |
| `StaleCaches.MisplacedAppend` | lib/src/red_black_tree.rs:1832-1885 | a run on the array that misplaces an entry: with the root of 10, 20, 30, 40 cached, inserting 25 and 35 leaves 35 before 30 |
| `RedBlackTrees.RemoveKeeps` | lib/src/red_black_tree.rs:1185-1225 | removal keeps order, balance and a black root, and drops exactly the one entry |
| `Insertion.InsertOrder` | lib/src/red_black_tree.rs:1548-1574 | whatever the rotations do to equal keys, the sequence is the old one with the new entry at its stable place |
| `Insertion.InsertStepBalanced` | lib/src/red_black_tree.rs:1583-1670 | a round either mends the one red pair or moves it two levels up, nothing else being wrong |
| `Insertion.InsertBalanced` | lib/src/red_black_tree.rs:1597-1601 | insertion keeps a tree balanced also when it starts with a red root |
| `Insertion.InsertRedBlack` | lib/src/red_black_tree.rs:1583-1670 | a black root stays black |
| `Removal.RemoveStepBalanced` | lib/src/red_black_tree.rs:1463-1544 | from a position one black node short, a round balances the tree or leaves exactly one such position, with a smaller measure |
| `Removal.RemoveBalanced` | lib/src/red_black_tree.rs:1185-1225 | removing any node of a balanced tree leaves a balanced tree |
| `Removal.RemoveRedBlack` | lib/src/red_black_tree.rs:1185-1225 | and the root stays black |
| `Removal.RemoveOrder` | lib/src/red_black_tree.rs:1339-1395 | the sequence loses exactly the removed entry, successor transplant and rotations included |
| `Links.RotateLeftStores` | lib/src/red_black_tree.rs:483-535 | the link writes of a left rotation give exactly the rotated tree, parents and root link included |
| `Links.RotateRightStores` | lib/src/red_black_tree.rs:537-589 | likewise to the right |
| `Links.RotateDoubleStores` | lib/src/red_black_tree.rs:1400-1461 | the fused double rotation gives exactly the tree with the middle node lifted over both others, in the three given colours |
| `Links.DoubleIsTwoRotations` | lib/src/red_black_tree.rs:1400-1461 | block for block the same array as two opposite single rotations and three recolourings |
| `Splicing.SpliceStores` | lib/src/red_black_tree.rs:695-727 | splicing puts the only child, or nothing, in a node's place |
| `Splicing.RemoveInternalStores` | lib/src/red_black_tree.rs:1339-1395 | the transplant leaves the tree with the successor in the node's place, and the removed block's final header |
| `SwapSplice.RemoveInternalIsSwapThenSplice` | lib/src/red_black_tree.rs:1336-1395 | block for block the same array, the removed block included, as swapping with the successor and then splicing |
| `NodeSwaps.SwapNodeWithSuccessor` | lib/src/red_black_tree.rs:591-691 | the swap on the array, adjacent and apart, is the function the equality above speaks about |
| `NodeOps.RotateDouble` | lib/src/red_black_tree.rs:1400-1461 | the fused rotation on the array is the function the equality above speaks about |
| `NodeOps.UpdateParentChild` | lib/src/red_black_tree.rs:695-727 | the splice on the array, with the child, parent and colour that repair needs |
| `Links.StoresUnique` | lib/src/red_black_tree.rs:1102-1115 | a tree determines every header in its blocks, so equal trees mean equal arrays there |
| `Caching.DescendToMax` | lib/src/red_black_tree.rs:1252-1272 | when every key is smaller, a descent ends exactly to the right of the rightmost node |
| `Positions.InsertMax` | lib/src/red_black_tree.rs:1253-1259 | insertion changes the rightmost node exactly when the new key is larger than all |
| `Positions.RemoveMax` | lib/src/red_black_tree.rs:1192-1199 | removing the rightmost node makes its predecessor the rightmost; any other removal does not |
| `Traversal.GetNextLowerIndex` | lib/src/red_black_tree.rs:797-834 | the predecessor in sequence, also on an array whose larger nodes have had their right links overwritten |
| `Traversal.GetNextHigherIndex` | lib/src/red_black_tree.rs:840-853 | the leftmost node of the right subtree: the successor of an internal node |
| `Traversal.LookupMaxIndex` | lib/src/red_black_tree.rs:770-784 | the slot of the rightmost node |
| `Traversal.LookupIndex` | lib/src/red_black_tree.rs:735-768 | a node with an equal value, on whichever side of equal keys; NIL exactly when the tree has none |
| `Traversal.Predecessor` | lib/src/red_black_tree.rs:797-834 | what the walk down and up finds is the entry before, for every position in every tree |
| `Bounds.DescentBound` | lib/src/red_black_tree.rs:1548-1574 | a descent takes at most 2b levels, where 2^b is at most the number of nodes plus one |
| `Bounds.LandingBound` | lib/src/red_black_tree.rs:1285-1292 | a loop of at most half the depth plus one rounds below any place a leaf can land takes at most b + 1 |
| `Bounds.HoleDepth` | lib/src/red_black_tree.rs:1217-1224 | the hole a removal leaves has at most b black nodes above it |
| `Bounds.RemoveRoundsBound` | lib/src/red_black_tree.rs:1463-1544 | each round climbs a black level, but for one lowering of the sibling and the last round |
| `Bounds.SizeBound` | lib/src/red_black_tree.rs:1548-1574 | a balanced tree of black height b has at least 2^b - 1 nodes |
| `Bounds.HeightBound` | lib/src/red_black_tree.rs:1548-1574 | and at most 2b levels below a black root |
| `Tagging.TaggedInsert` | lib/src/red_black_tree.rs:1228-1231 | whatever node is cached, inserting with a tag is inserting and then tagging, with the same cache |
| `Tagging.TaggedInsertSameArray` | lib/src/red_black_tree.rs:1165-1170 | and the two arrays differ in that one field and nowhere else |
| `Tagging.InsertionMovesNobody` | lib/src/red_black_tree.rs:1231-1296 | whatever node is cached, a misplaced append included, every old entry keeps its block, payload and tag through an insertion |
| `Tagging.RemovalMovesNobody` | lib/src/red_black_tree.rs:1336-1395 | every other entry keeps its block, payload and tag through a removal |
| `Caching.CachedOwned` | lib/src/red_black_tree.rs:1231-1296 | whatever node is cached, after an insertion the tree owns its old blocks and the new one |
| `LinkedLists.LinkedList.Insert` | lib/src/linked_list.rs:229-247 | prepends, writing only the new block and the list's own |
| `LinkedLists.LinkedList.RemoveByIndex` | lib/src/linked_list.rs:251-277 | deletes one element anywhere in the list and clears its links |
| `LinkedLists.LinkedList.LookupIndex` | lib/src/linked_list.rs:174-183 | the first node with an equal value, NIL exactly when there is none |
| `LinkedLists.LinkedList.GetPrevIndex` | lib/src/linked_list.rs:119-123 | the node before, for any node; NIL at the head and for NIL |
| `LinkedLists.LinkedList.SetValue` | lib/src/linked_list.rs:107-111 | updating a payload through its mutable reference changes that entry alone and leaves a list |
| `LinkedLists.WalkAndRemove` | lib/src/linked_list.rs:251-277 | every original node is visited once, in order; an entry remains exactly when its visit does not decide to drop it, once, and those that remain keep their order |
| `LinkedLists.ListIterator.Next` | lib/src/hypertree.rs:114-123 | the shared iterator over a list: yields the next entry and steps on; None for ever at the end |
| `LinkedLists.DrainList` | lib/src/hypertree.rs:95-124 | iterating a list yields every entry exactly once, from the head |
| `Conversion.ConvertRedBlackTreeToLinkedList` | lib/src/linked_list.rs:304-342 | turns a tree into the list of its entries in descending order, in place, payloads and other blocks untouched |
| `Conversion.WalkDown` | lib/src/linked_list.rs:317-327 | pass one chains every node to its predecessor through the field it overwrites while still walking the tree |
| `Conversion.RewiredWalkable` | lib/src/linked_list.rs:297-303 | an array with the right links of the larger nodes overwritten can still be walked down from there |
| `Conversion.FinishHeaders` | lib/src/linked_list.rs:329-340 | pass two completes every header from the chain alone |
| `Conversion.ListIsSpine` | programs/wrapper/src/processors/shared.rs:60-66 | an array holds a list exactly when it holds the tree in which every node is the right child of the one before, whose in-order walk is the list |
| `Runs.ValueIterator.Next` | lib/src/hypertree.rs:114-123 | the same over a tree: yields the next entry down and steps on; None for ever once all have been yielded |
| `Runs.Drain` | lib/src/hypertree.rs:95-124 | iterating any stored tree, left-leaning ones too, from any cached node yields every entry from there down exactly once, in descending sequence; all of them exactly when the cache is unused or exact |
| `Runs.Run` | lib/src/red_black_tree.rs:2430-2535 | after every run of inserts and removals from empty the tree is valid, its maximum exact, and its sequence the price-time order of what is live |
| `Runs.RunAndDrain` | lib/src/hypertree.rs:95-124 | after every such run, iterating yields each live block once, best key first, and of equal keys the one that arrived first |
| `Runs.PriceTimeUnique` | lib/src/red_black_tree.rs:2430-2535 | price-time order leaves no freedom: two sequences in that order are the same |
| `Runs.InsertPriceTime` | lib/src/red_black_tree.rs:1269-1272 | an arrival goes behind all older arrivals of its key |
| `Runs.RemovePriceTime` | lib/src/red_black_tree.rs:1185-1225 | a removal keeps everybody else's rank |
| `LLRBs.LLRB.Insert` | lib/src/llrb.rs:395-426 | left-leaning insertion in place, with any node cached, keeps the array a whole left-leaning tree, in order; the cache comes out exact exactly when it was or when a node was cached and the new key is larger than all; it completes exactly when a node is cached or the tree was empty |
| `LeaningBlocks.LeaningCache` | lib/src/llrb.rs:420-422 | the same condition on trees: from any cached node the new cache is the maximum exactly when the old one was or the new key is larger than all |
| `LLRBs.LLRB.InsertRecursive` | lib/src/llrb.rs:130-191 | the recursion gives exactly the tree repaired on the way up, though rotations below rewrite links of its ancestors |
| `LLRBs.LLRB.ColorFlip` | lib/src/llrb.rs:104-128 | toggles a node and its children and nothing else |
| `LeftLeaning.InsertKeeps` | lib/src/llrb.rs:159-191 | no red right link, no two red links in a row, one black height, black root |
| `LeftLeaning.InsertAllAgrees` | lib/src/llrb.rs:395-426 | for every insert sequence, the same entries in the same order as the red-black tree |
| `LeftLeaning.SameOrderAsRedBlack` | lib/src/llrb.rs:143-157 | one insertion keeps two trees of the same sequence in agreement |
| `Validation.ValidateRedBlackTree` | lib/src/red_black_tree.rs:136-238 | passes exactly when the links lead through a proper tree: bounds, alignment, parents, colours, strict ordering, black height, maximum; ends on arbitrary links |
| `ReachableTrees.ProperByLinks` | lib/src/red_black_tree.rs:136-238 | the same told from the links alone, in both directions: whatever way they are followed from the root, every node reached lies wholly in the buffer at a multiple of eight, with a legal colour and links that its children return, no red one below a red one, none reached twice, keys no larger to the left and larger to the right, as many black nodes on every way out, and the given maximum where the right links end |
| `ReachableTrees.UnreadableRejected` | lib/src/red_black_tree.rs:162-167 | a tree whose links lead to a node that the end of the buffer cuts off, or that is misaligned, is not accepted |
| `Validation.LaidUnique` | lib/src/red_black_tree.rs:136-238 | a buffer and a root determine the tree |
| `Acceptance.BuiltTreeAccepted` | lib/src/red_black_tree.rs:183-185 | for nodes of any size in blocks of any size that fits them: the bytes of a tree kept by the run invariant are accepted exactly when no right subtree holds a key equal to the node's |
| `Acceptance.DifferentKeysStrict` | lib/src/red_black_tree.rs:183-185 | which is so whenever keys are pairwise different |
| `Acceptance.ThreeEqualKeysRejected` | lib/src/red_black_tree.rs:1641-1645 | the bytes that inserting any three equal keys leaves are not accepted |
| `ListValidation.ValidateLinkedList` | lib/src/linked_list.rs:355-401 | Ok(n) exactly for a chain of n nodes, each wholly in the buffer and aligned in memory, with matching back links, no left children, no cycle and no byte shared |
| `ListValidation.UnreadableRejected` | lib/src/linked_list.rs:367-374 | a list whose links lead to a node that the end of the buffer cuts off, or that is misaligned in memory, is not accepted |
| `ListValidation.GapsApart` | lib/src/linked_list.rs:391-399 | comparing neighbours after sorting finds every overlap |
| `FreeLists.FreeList.Add` | lib/src/free_list.rs:56-61 | pushes the block, all zeroes but for the link to the next free one, and writes no other |
| `FreeLists.FreeList.Remove` | lib/src/free_list.rs:64-80 | pops the last one freed, zero in every field; END exactly when the pool is empty |
| `FreeLists.AddThenRemove` | lib/src/free_list.rs:56-80 | freeing a block and taking one gives that block and the old pool back |
| `Arenas.Arena.InsertIntoTree` | lib/src/free_list.rs:64-80 | allocating and inserting into one tree leaves every other tree, the list and the pool whole, and hands over exactly one block |
| `Arenas.Arena.RemoveFromTree` | lib/src/free_list.rs:56-61 | removing and freeing gives exactly that block back |
| `Arenas.Arena.InsertIntoList` | lib/src/linked_list.rs:229-247 | the same for the list |
| `Arenas.Arena.RemoveFromList` | lib/src/linked_list.rs:251-277 | the same for the list |
| `Arenas.Arena.ConvertTree` | programs/wrapper/src/processors/shared.rs:235-250 | a tree becomes the list in place: its blocks change owner as one, every other tree and the pool stay whole, every block keeps exactly one owner |
| `ArenaRuns.Run` | README.md:58-62 | any requests in any order, conversions included: each does what the model on sequences says or, when it cannot be met, nothing; no block is lost or owned twice, and an entry ends only by a request to take its value |
| `ArenaRuns.RunFromEmpty` | README.md:58-62 | every run from the empty arena accounts for every block of the array |
| `ArenaRuns.StepHeld` | programs/wrapper/src/processors/shared.rs:50-57 | through any request an entry keeps block, payload and tag, conversion included, unless its value is taken |
| `Arenas.Arena.ValidPartitions` | README.md:58-62 | the blocks are partitioned: none lost, none owned twice |
| `Arenas.EmptyArena` | README.md:58-62 | an empty arena, with every block in the pool, is where runs start |
| `Arenas.RemoveOwns` | lib/src/red_black_tree.rs:1185-1225 | removal gives up exactly the one block |
| `Admissions.Admission.Arrive` | scripts/stats_utils/httpAdmission.ts:65-164 | a request over its own client's budget is answered at once; any other runs at once, waits last in line, or finds the queue full and is answered, exactly as slots and queue allow; its own client's window counts it unless it was answered, and no other client's entry changes but for expired ones swept from a full table; a client with no window less than a minute old is let in when the limit is positive and the table has room |
| `Admissions.Admission.TakeWindow` | scripts/stats_utils/httpAdmission.ts:69-97 | lets a request in exactly when the table has room, if need be by sweeping expired entries, and the client's own window, if less than a minute old, has requests left; charges that window or a new one of that client; touches no other client's |
| `AdmissionRecords.OwnBudget` | scripts/stats_utils/httpAdmission.ts:84-95 | with a positive limit and room in the table a client with no window less than a minute old is let in, and one is only turned away once as many of its own requests as the limit are counted |
| `AdmissionRecords.WindowsApart` | scripts/stats_utils/httpAdmission.ts:71-97 | different clients have different windows, and each counts exactly the admitted and waiting requests of its own client |
| `Admissions.Admission.OnClose` | scripts/stats_utils/httpAdmission.ts:107-164 | a running request runs no more: the head of the queue has its slot, or one slot less is in use; a waiter that leaves is answered once and waits no more, its charge refunded; any other ending changes neither who runs nor who waits |
| `Admissions.Admission.OnFinish` | scripts/stats_utils/httpAdmission.ts:107-115 | a running request runs no more: the head of the queue has its slot, or one slot less is in use; any later ending hands on nothing |
| `Admissions.Admission.OnTimeout` | scripts/stats_utils/httpAdmission.ts:152-160 | drops a request only while it waits |
| `Admissions.Admission.ReleaseSlot` | scripts/stats_utils/httpAdmission.ts:50-58 | the slot goes to the first waiter, or is free again; never lost, because waiters are never settled |
| `Admissions.Serve` | scripts/stats_utils/httpAdmission.ts:30-165 | in every run: slots in use are the running requests and within the limit, all are in use while anybody waits, every request has exactly one outcome, nobody is overtaken, different clients have different windows, and each counts its own client's admitted and waiting requests |
| `AdmissionRecords.FirstComeFirstServed` | scripts/stats_utils/httpAdmission.ts:50-56 | nobody who still waits arrived before somebody who was started |
| `Admissions.EndAll` | scripts/stats_utils/httpAdmission.ts:50-58 | from any state, ending whoever runs, in any order and each by a finished response or by a closed connection, admits every waiter in the order of the queue and ends with nobody waiting and no slot in use, unless there are no slots at all |
| `AdmissionRecords.RejectWaiter` | scripts/stats_utils/httpAdmission.ts:138-158 | dropping a waiter leaves every other request, and every other window's count, as it was |
| `Packing.PackCollectTransactions` | scripts/collect-wrapper-fees.ts:208-250 | batches concatenate to the input and are not empty; none has more than 61 wrappers or than the caller's limit, and one of several wrappers serializes, to at most 4096 bytes; one followed by another has 61 wrappers or as many as the limit, or with the next wrapper does not serialize within 4096 bytes; exactly when it fails and why |
| `Packing.FewestBatches` | scripts/collect-wrapper-fees.ts:207-250 | no split in order that keeps the limits has fewer batches |
| `Packing.PackOptimally` | scripts/collect-wrapper-fees.ts:207-250 | when every wrapper fits alone, all batches keep the limits and there is no better split |
| `Packing.PackedWithinLimits` | scripts/collect-wrapper-fees.ts:239-247 | whatever the sizes, the batches keep the limits exactly when every wrapper fits alone |
| `Packing.PackEqualSingles` | scripts/collect-wrapper-fees.ts:127-146 | messages for one wrapper all being of one size: packing fails exactly when no wrapper fits, and otherwise keeps the limits with as few batches as any split in order |
| `VolumeIndexes.TraderVolumeIndex.Add` | scripts/stats_utils/traderVolumeIndex.ts:42-62 | the trader moves past exactly the smaller ones and positions stay exact; the index stays valid exactly when the amount is not negative or leaves the trader a volume of at least zero and of the next trader's |
| `VolumeIndexes.FallenTraderStays` | scripts/stats_utils/traderVolumeIndex.ts:37-50 | a run in which a negative amount leaves the smaller trader in front |
| `VolumeIndexes.TraderVolumeIndex.Ensure` | scripts/stats_utils/traderVolumeIndex.ts:28-35 | a new trader joins at the back with nothing; one that is tracked changes nothing |
| `VolumeIndexes.TraderVolumeIndex.Top` | scripts/stats_utils/traderVolumeIndex.ts:75-77 | the first n, in any state; in a valid one nobody left out has more than anybody listed |
| `VolumeIndexes.TraderVolumeIndex.Rebuild` | scripts/stats_utils/traderVolumeIndex.ts:84-96 | the traders in descending order of what is given, those of equal totals in the order given; the index is consistent exactly when no trader is given twice, and then holds what was given |
| `VolumeIndexes.StableUnique` | scripts/stats_utils/traderVolumeIndex.ts:85-88 | only one arrangement is descending and keeps the given order among equal totals |
| `VolumeIndexes.RebuiltTwice` | scripts/stats_utils/traderVolumeIndex.ts:84-96 | a run in which a trader given twice is listed twice |
| `VolumeIndexes.SameAsFullSort` | scripts/stats_utils/traderVolumeIndex.ts:13-17 | any fresh descending sort shows the same volumes rank by rank, and the same traders where none tie |
| `VolumeIndexes.LoweredDescending` | scripts/stats_utils/traderVolumeIndex.ts:37-50 | a falling volume keeps the order exactly when the next trader is still no larger |
| `VolumeIndexes.RaisedDescending` | scripts/stats_utils/traderVolumeIndex.ts:51-61 | bubbling past the smaller ones restores the descending order |
| `VolumeIndexes.Run` | scripts/stats_utils/traderVolumeIndex.ts:18-97 | after every run from empty the order is a descending list of the tracked traders with exact positions, and the totals are the accumulated amounts |

## Left out

- Deletion from the left-leaning tree: the source says itself that it mishandles equal keys.
- Byte-level casts and alignment of `lib/src/utils.rs`: blocks are typed slots; only the validators see offsets, bounds, alignment and overlap.
- Links in the trees and lists are block numbers rather than byte offsets; their u32 range shows as the limit `NIL` on the array's length.
- Payloads are a key and a nonce; other fields of an order or a seat do not matter to the structures.
- Debug assertions, tracing, pretty printers, test helpers, and the `certora` variants.
- An arena has one list at a time, so a tree is converted only while that list is empty, as a market has either layout.
- `LookupIndex`, `RemoveFromList` and the walks take ghost arguments (the tree, or the position in the list) that say what the array holds; they do not take part in what is computed.
- Read-only variants of the tree and list types, whose methods are the same code.
- Seats, matching, global and reverse orders: their state code is not part of this model.
- Admission: timers, sockets and headers are steps and flags; the route handler does not end its response within the call that starts it; Retry-After values are not computed.
- Packer: the size of a serialised transaction is a parameter; that all one-wrapper messages have one size is read off their fixed accounts and data, for wrapper addresses other than the collector's, the system program's and the wrapper program's; the argument that sub-batches of a fitting batch fit is an assumption on it, as the source's greedy argument needs; errors it rethrows are not modelled.
- Volume index: volumes are real numbers, so floating-point rounding is not modelled; the library sort is modelled as a stable insertion sort.
- Plain getters such as `size` and `get_head`.
