# Verified models of in-memory maps

Five maps of this repository, modelled in Dafny together with the properties their code relies on.

- **Crit-bit tree** (`critbit.c`, `critbit_common.h`): bit tricks on bytes, the trie and its map, the same
  in explicit memory with the pointer loops of the C code, and the protocol between lock-assisted
  readers and the one writer as a step system. `CritbitBits`, `CritbitTrie`, `CritbitHeap`, `CritbitProtocol`,
  `CritbitGrace`, `CritbitBound`, `CritbitRuns`.
- **Redis dictionary** (`redisdict.c`): two chained tables during an incremental rehash, the stateless
  scan with its reversed cursor, the load bound and the safe iterator. `BitWords`, `DictTable`, `DictOps`,
  `DictClass`, `DictScan`, `DictScanExact`, `DictScanGap`, `DictScanOnce`,
  `DictSizing`, `DictLoad`, `DictIterator`.
- **Adaptive radix tree** (`art.c`): four node layouts, in place in arrays (`ArtNode`) and as maps from
  bytes to children (`ArtBody`), path compression that stores ten bytes of a prefix (`ArtTree`, `ArtOps`),
  the map, its order and its iteration (`ArtMap`, `ArtClass`).
- **Red-black and splay trees** (`tree.h`): cells with child and parent pointers in explicit memory.
  `RBModel`, `RBTree`, `SplayModel`, `SplayTree`.
- **uthash** (`uthash.h`): items on two intrusive doubly linked lists, bucket doubling, and the merge sort
  of the insertion order. `HashSort`, `HashList`, `HashChains`, `HashShape`, `HashTable`, `HashRun`.

`Basics` holds what several of them share.

## How the code is represented

Code that changes things step by step is a class whose methods keep the source's loops and assignments.
Each is proved against a specification function of the old state, or against the sequence or map it
stands for, and what the source promises is proved of those. Where nodes are linked by pointers, the class
holds the memory as a finite map from addresses to cells, so that dangling cells, aliasing and the order of
writes are explicit; a ghost tree, trie or sequence says what that memory represents.

Mirror images in `tree.h` (left and right branches of rotations, colour repair and splaying) are written
once, with the side as a parameter. A hash is any function from keys to 32-bit words; comparison functions
are any total preorder.

Where code and comment disagree the code is followed. Two promises do not hold as written, and the exact
condition is proved instead:

- `dictScan` is said to return every element present from start to end. With the table shrinking by a factor
  of four or more it can miss one (`DictScanGap.ScanCanMiss`). A call made while both tables exist covers its
  block if and only if the bits of the cursor between the two masks are zero, or a run of ones that starts at the
  lowest bit between the masks, or the table shrinks and the last bucket that the call skips lies below
  `rehashidx` (`DictScanExact.CoverageIsExact`). The first always holds when the sizes differ by a factor of two.
- `critbit_get` loads `cur_rwlock` and acquires it in two steps. If a deletion has rotated the lock out in between,
  a reader can be led to freed memory (`CritbitGrace.StaleLockIsReachable`). Exactly then: an acquisition is safe
  if and only if the lock is the current one, or a deletion has yet to wait for it (from its unlinking write until
  the wait is over), or the mutex holder is about to delete a key that is absent or whose leaf and parent are not
  on the reader's way (`CritbitGrace.AcquireFailsExactly`). The last case is safe because that one deletion does
  not wait for the reader, but every later one does. With choice and acquisition in one step every acquisition
  is in time, and the grace period holds without conditions (`CritbitRuns.AtOnceNeverTouchesFreedMemory`).

## Model

| member | source | states |
|---|---|---|
| CritbitBits.DirectionIsBit | critbit_common.h:47-52 | The complement mask and the add-and-shift choose child 1 exactly when the key has a 1 at the node's position; bytes past the key count as zero |
| CritbitBits.PositionOrder | critbit.c:92-95 | Comparing (byte, otherbits) lexicographically is comparing bit positions, and equal pairs are equal positions |
| CritbitBits.CriticalMask | critbit.c:64-67 | The loop leaves the complement mask of the highest differing bit |
| CritbitBits.FindCritical | critbit.c:49-67 | Fails exactly for equal keys; otherwise byte and mask are the first bit at which the keys differ |
| CritbitBits.DiffIsFirst | critbit.c:49-69 | Keys agree on every earlier bit and differ at the critical one, where the greater byte has the 1 |
| CritbitBits.LessIsZeroBit | critbit.c:49-69 | Unsigned lexicographic order of keys is the order of their critical bit |
| CritbitTrie.LookupIsMapLookup | critbit_common.h:54-61 | The leaf that find_nearest reaches holds the key exactly when the key is stored, with its value |
| CritbitTrie.PlaceInv | critbit.c:85-101 | Inserting at the first difference from any leaf found keeps positions strictly increasing on every path and every node splitting its keys by its bit |
| CritbitTrie.InsertRefinesMap | critbit.c:33-105 | Insertion keeps the invariant, adds one pair to the map, and changes nothing for a key already there |
| CritbitTrie.RemoveInv | critbit.c:117-146 | Replacing a node by the sibling of the leaf keeps the invariant |
| CritbitTrie.DeleteRefinesMap | critbit.c:117-146 | Deletion keeps the invariant and removes exactly the key |
| CritbitTrie.Canonical | critbit.c:85-101 | Two sound trees with the same keys have the same byte and mask at every node |
| CritbitTrie.RunRefinesMap | critbit.c:33-146 | Every run of inserts and deletes leaves a sound tree that holds the map of that run |
| CritbitTrie.HistoryIndependent | critbit.c:33-146 | Two runs end with structurally identical trees if and only if they end with the same key set |
| CritbitTrie.DeleteUndoesInsert | critbit.c:33-146 | Deleting a freshly inserted key restores the earlier tree exactly, addresses included |
| CritbitTrie.LeavesAreSorted | critbit.c:47-101 | The leaves from left to right are in unsigned lexicographic order |
| CritbitHeap.PublishIsInsert | critbit.c:71-101 | Two fresh cells and one pointer write turn the memory of a tree into the memory of the tree with the key inserted |
| CritbitHeap.UnlinkIsDelete | critbit.c:138-145 | One pointer write turns the memory of a tree into the memory of the tree without the key; the cells that leave it are the node and the leaf |
| CritbitHeap.CritbitRoot.FindNearest | critbit_common.h:54-61 | The pointer loop returns the leaf of the tree's descent |
| CritbitHeap.CritbitRoot.Get | critbit.c:193-210 | Answers as the map does, for a non-empty tree |
| CritbitHeap.CritbitRoot.FindPlace | critbit.c:85-98 | The loop over *wherep stops at the one pointer that insertion has to replace |
| CritbitHeap.CritbitRoot.InsertInplace | critbit.c:33-105 | Result code, tree, map and whole memory after an insertion; nothing changes for a key already there |
| CritbitHeap.CritbitRoot.FindVictim | critbit.c:121-132 | The loop ends at the leaf, its parent, and the pointer to that parent |
| CritbitHeap.CritbitRoot.DeleteInplace | critbit.c:117-146 | What is returned, and the memory after the one write |
| CritbitHeap.CritbitRoot.CritbitDelete | critbit.c:148-191 | The map without the key, the two locks swapped, and exactly the unlinked cells freed |
| CritbitHeap.CritbitRoot.FreeUnlinked | critbit.c:177-188 | The choice between the two child strings frees the deleted leaf, never a live one |
| CritbitHeap.LeafSurvives | critbit.c:180-187 | After the unlink both child strings of the removed node can still be read and compared |
| CritbitProtocol.StepKeeps | critbit.c:148-210 | Every step of every reader and of the writer keeps the invariant of the protocol, provided a lock is acquired in time, or during a deletion that unlinks nothing on the reader's way |
| CritbitProtocol.PublishKeepsPath | critbit.c:99-101 | From any node, live or unlinked, following a key's directions still reaches its leaf after an insertion is published |
| CritbitProtocol.UnlinkKeepsPath | critbit.c:138-145 | The same after another key is unlinked |
| CritbitProtocol.LeadsAfterFree | critbit.c:174-188 | Freeing a cell a reader cannot reach any more leaves the reader's way to its leaf |
| CritbitProtocol.NextIsSafe | critbit_common.h:55-59 | The next pointer a reader loads leads to memory that is still there, and that no deletion older than the reader unlinked |
| CritbitProtocol.LookupIsLinearizable | critbit.c:193-210 | In every reachable state a reader that ends returns the answer of some map that was current during its read; a key present throughout is found |
| CritbitRuns.PublishIsMapInsert | critbit.c:71-101 | The published map is the one before with the pair the caller gave, or the same if the key was there |
| CritbitRuns.UnlinkIsMapDelete | critbit.c:117-146 | The map after the unlinking write is the one before without the key the caller gave |
| CritbitRuns.HistoryIsPlain | critbit.c:33-210 | In every run the tree goes through exactly the maps that a plain map goes through under the calls of the run |
| CritbitRuns.LookupAnswers | critbit.c:193-210 | Over whole runs: a lookup called with a key returns what that plain map held for the key at some point between the acquisition of its lock and its end |
| CritbitProtocol.NoReaderTouchesFreedMemory | critbit.c:148-210 | In every reachable state the cell a reader is at, and the one it loads next, are neither freed nor about to be |
| CritbitProtocol.FreedAreOutOfReach | critbit.c:174-188 | No reader can get to a cell that may be freed, in any reachable state |
| CritbitProtocol.DeletionWaitsForOlderReaders | critbit.c:156-188 | In runs in which every lock is acquired in time: at the start of a deletion nobody holds the previous lock, and what is freed was unlinked before every active reader began |
| CritbitRuns.ChosenIsTimely | critbit.c:197-198 | In every state the lock that a lookup chooses is acquired in time if it is acquired at once |
| CritbitRuns.AtOnceIsSafe | critbit.c:197-198 | Every run in which each lock is acquired right after it is chosen has timely acquisitions only |
| CritbitRuns.AtOnceNeverTouchesFreedMemory | critbit.c:148-210 | In such runs, with no other condition, the cell a reader is at and the one it loads next are neither freed nor about to be |
| CritbitRuns.AtOnceDeletionWaits | critbit.c:156-188 | In such runs nobody holds the previous lock at the start of a deletion, and what is freed was unlinked before every active reader began |
| CritbitRuns.NothingLeaks | critbit.c:174-188 | In every reachable state all memory is the tree, what the current deletion has unlinked, and what is about to be freed |
| CritbitGrace.StaleAcquireIsUnsafe | critbit.c:197-198 | In every state of the invariant, whoever else is active: an acquisition that is not safe can be followed by steps that leave a reader at freed memory |
| CritbitGrace.AcquireFailsExactly | critbit.c:197-198 | The exact condition: freed memory can be reached after an acquisition if and only if the lock was rotated out before and the mutex holder is not in a deletion that spares the reader |
| CritbitGrace.StaleLockIsReachable | critbit.c:193-199 | Such a state is reached from the empty tree |
| CritbitGrace.LateCanBeSafe | critbit.c:193-199 | Being late alone is not unsafe: a reachable state in which the lock was rotated out and acquiring it does no harm |
| CritbitGrace.FinishReaders | critbit_common.h:54-61 | From every state, readers that are under way can all finish, through live and unlinked nodes |
| CritbitBound.StepLeaves | critbit_common.h:54-61 | Each pointer load takes a reader to a later bit position, and no step of anybody else takes it back |
| CritbitBound.LookupEnds | critbit_common.h:54-61 | A lookup loads at most one pointer for each bit of the longest key ever inserted and one more, under any interleaving |
| BitWords.Rev | redisdict.c:647-655 | The swap loop reverses the bits, for every power-of-two word width |
| BitWords.ReversedInvolutive | redisdict.c:804-807 | Bit reversal is its own inverse |
| BitWords.MaskIsMod | redisdict.c:866 | Masking by a size less one is the remainder |
| BitWords.BlockOf | redisdict.c:676-691 | The low bits of a word are the high bits of its reversal: buckets are contiguous blocks of reversed words |
| BitWords.IncVal | redisdict.c:806 | Adding one carries through the word and wraps around |
| DictOps.NextPowerIsPow2 | redisdict.c:837-847 | The result is a power of two if and only if the argument is below LONG_MAX; then it is the least one that fits from 4 on |
| DictSizing.ExpandExactly | redisdict.c:207-234 | Succeeds exactly without a rehash and with room for the entries; the new table has the least power of two from 4 and the size asked for, and a rehash begins at bucket 0 exactly if there was a table |
| DictSizing.ResizeExactly | redisdict.c:195-204 | Refused exactly with resizing off or a rehash on; otherwise as an expansion to the least power of two from 4 and the number of entries |
| DictSizing.GrowsExactly | redisdict.c:815-834 | Growth happens exactly without a table, or with as many entries as buckets and resizing allowed, or a ratio above 5; to the least power of two from twice the entries |
| DictSizing.RehashMovesOneBucket | redisdict.c:246-273 | A step empties the first non-empty bucket, whose entries and no others come to the second table; with nothing left, that becomes the first |
| DictSizing.AddMoves | redisdict.c:334-357 | One step of the rehash, growth at the load limit, and the new entry in front of its bucket in the table being filled |
| DictSizing.ReplaceMoves | redisdict.c:363-382 | Overwriting takes a second step of the rehash |
| DictSizing.FindMoves | redisdict.c:476-495 | One step of the rehash |
| DictSizing.DeleteMoves | redisdict.c:397-432 | One step of the rehash |
| DictOps.RehashOnceKeeps | redisdict.c:246-273 | Moving one bucket keeps both tables sound, every lookup, and the counts, and the index advances |
| DictOps.RehashKeeps | redisdict.c:240-276 | Any number of steps leaves the map unchanged |
| DictOps.RehashFinishes | redisdict.c:240-276 | Rehashing ends within one step more than the buckets left |
| DictOps.ExpandKeeps | redisdict.c:207-234 | A new table changes no lookup, in the first table or beside it |
| DictOps.ExpandIfNeededKeeps | redisdict.c:815-834 | Growing never fails and changes no lookup; afterwards there is a table |
| DictOps.AddRefinesMap | redisdict.c:310-357 | In every state of a rehash, adding is refused exactly for a present key and otherwise adds one pair |
| DictOps.FindRefinesMap | redisdict.c:476-495 | Finding returns the map's value and leaves every entry findable |
| DictOps.DeleteRefinesMap | redisdict.c:397-432 | Deleting removes exactly the key, from whichever table it is in |
| DictOps.ReplaceRefinesMap | redisdict.c:363-382 | Replacing sets the key's value, and says whether the key is new |
| DictOps.AddKeeps | redisdict.c:334-357 | The new entry is in the right table, the other keys keep their very entries, and the counts match |
| DictOps.DeleteKeeps | redisdict.c:397-432 | The same of deletion |
| DictOps.ApplyRefinesMap | redisdict.c:195-495 | Every operation, resizing and rehashing included, is that of a plain map |
| DictOps.After | redisdict.c:171-495 | After every run of operations on a new dictionary: each entry in the bucket of its hash in exactly one table, no key twice, counts and emptied buckets right, and the plain map |
| DictClass.Dictionary.DictExpand | redisdict.c:207-234 | Refused during a rehash or when too small; otherwise the new table becomes the first, or the second with rehashing begun at bucket 0 |
| DictClass.Dictionary.DictExpandIfNeeded | redisdict.c:815-834 | Creates the first table, or begins to grow at the load limit, resizing allowed or the ratio exceeded; never fails |
| DictClass.Dictionary.DictResize | redisdict.c:195-204 | Refused when resizing is off or a rehash is on; otherwise shrinks to the entries, at least the initial size |
| DictClass.Dictionary.DictRehash | redisdict.c:240-276 | The loops over steps, empty buckets and chain entries move exactly the specified buckets; 1 while rehashing goes on |
| DictClass.Dictionary.DictRehashStep | redisdict.c:305-307 | One step, and none while a safe iterator is running |
| DictClass.Dictionary.DictFind | redisdict.c:476-495 | The map's entry, after one step of the rehash |
| DictClass.Dictionary.DictAdd | redisdict.c:310-357 | Refused exactly for a present key; otherwise the entry is at the head of its chain in the table that is filled |
| DictClass.Dictionary.DictReplace | redisdict.c:363-382 | Adds the entry, or overwrites the value after two steps of the rehash; tells which |
| DictClass.Dictionary.DictDelete | redisdict.c:397-432 | Unlinks the entry from the table it is in and counts it off; fails exactly for an absent key |
| DictClass.Dictionary.DictScan | redisdict.c:741-810 | The entries passed to the callback and the next cursor, by the masks, the expansion loop and the reversed increment |
| DictClass.DictNextPower | redisdict.c:837-847 | The doubling loop |
| DictClass.UnlinkFromChain | redisdict.c:411-427 | The search-and-unlink loop removes the first entry with the key |
| DictScan.CursorIsNextBlock | redisdict.c:800-807 | The masked, reversed increment moves the reversed cursor to the beginning of the next block of the smaller table |
| DictScan.ExpansionsAre | redisdict.c:785-797 | The expansion loop reads the buckets of the larger table that extend the cursor, from the cursor's own one upwards only |
| DictScan.CoverageIsGoodCursor | redisdict.c:785-797 | Of bucket numbers: the buckets read include all that the cursor's block of hashes needs in the larger table if and only if the middle bits of the cursor are zero, or a run of ones that starts at the lowest bit between the masks |
| DictScanExact.CoverageIsExact | redisdict.c:775-797 | Of entries: a call made while both tables exist emits every entry of its block, in every dictionary of the same sizes and rehashidx, if and only if the cursor is good in that sense, or the table shrinks and the last bucket skipped has been migrated |
| DictScan.CallCovers | redisdict.c:750-809 | A good call emits every entry whose reversed hash lies between the old and the new cursor |
| DictScan.ScanMissesNothing | redisdict.c:657-672 | Over a whole scan with any operations between its calls, every entry present at each call is emitted, if each call made during a rehash is good |
| DictScanGap.ScanCanMiss | redisdict.c:666-668 | Without that condition it fails: a run in which an entry present throughout is never emitted, on a reachable dictionary |
| DictScan.StableScanEnds | redisdict.c:752-809 | On an unchanging table of n buckets the cursor is 0 again after exactly n calls |
| DictScan.StableScanReadsOnce | redisdict.c:752-809 | and each bucket is read by exactly one of them |
| DictScanOnce.StableScanEmitsOnce | redisdict.c:752-809 | Over the calls of one scan of an unchanging table, every entry is passed to the callback exactly once |
| DictScanOnce.EmitsEachOnce | redisdict.c:741-810 | In any state of a rehash a call passes only entries of the dictionary, and none twice |
| DictLoad.LoadBound | redisdict.c:240-276 | In every run of adds, finds, replaces and deletes the entries never exceed the target table's size plus one, and while rehashing the buckets left are counted in |
| DictIterator.SafeIterator.DictNext | redisdict.c:562-595 | The entry returned, the saved next pointer, and the count of iterators |
| DictIterator.NextStrikesOff | redisdict.c:562-595 | Each call returns an entry still ahead and takes exactly its key off what is ahead; none is left at the end |
| DictIterator.OpPlaces | redisdict.c:305-307 | Adds, lookups, deletions of returned entries and expansions move no entry across a running safe iterator |
| DictIterator.IterationIsExact | redisdict.c:542-595 | Over a whole iteration interleaved with such operations no entry is returned twice, and every entry present throughout is returned |
| DictIterator.SafeIterator.Release | redisdict.c:597-604 | The count of iterators goes down if the iterator was counted |
| DictIterator.ReleaseRestores | redisdict.c:562-604 | After any run of calls and operations the release of an iterator leaves the count of iterators as before it |
| ArtBody.AddAdds | art.c:343-458 | Adding a child adds one pair to the map from bytes to children, whichever of the four layouts it grows through, and the child count stays in the layout's range |
| ArtBody.RemoveRemoves | art.c:585-692 | Removing a child removes exactly one pair, through every shrink; only a two-child NODE4 leaves its range |
| ArtBody.GrowsWhenFull | art.c:343-458 | A node grows exactly when it has 4, 16 or 48 children, to the next layout |
| ArtBody.ShrinksAtThreshold | art.c:585-647 | A node shrinks exactly when 3 of 16, 12 of 48 or 37 of 256 children are left, to the next layout |
| ArtBody.FreeSlotExists | art.c:351-352 | The search for a free slot of a NODE48 ends inside the array |
| ArtBody.Grow16Same | art.c:398-407 | A NODE48 made of a full NODE16 represents the same map |
| ArtBody.Grow48Same | art.c:357-365 | A NODE256 made of a full NODE48 represents the same map |
| ArtBody.SortedSame | art.c:614-628 | A NODE16 made of a sparse NODE48 represents the same map |
| ArtBody.PackedSame | art.c:591-604 | A NODE48 made of a sparse NODE256 represents the same map |
| ArtBody.OrderIsAscending | art.c:764-796 | Every layout visits exactly the bytes that have a child, in ascending order |
| ArtBody.EndKids | art.c:254-303 | minimum() descends to the child of the least byte, maximum() to that of the greatest |
| ArtBody.BytesBound | art.c:343-347 | At most 128 children for keys of ASCII bytes, so the 8-bit count does not wrap around |
| ArtNode.SmallNode.FindChild | art.c:131-161 | The index of the byte in the occupied part of the key array, or its length |
| ArtNode.SmallNode.AddChild | art.c:413-428 | Both arrays are shifted in place and stay parallel and sorted |
| ArtNode.SmallNode.RemoveChild | art.c:632-636 | Both arrays are shifted down in place |
| ArtNode.Node48.AddChild | art.c:349-355 | The first free slot and the byte index |
| ArtNode.AddChild | art.c:343-458 | The array code changes the node, or replaces it by a fresh larger one, as the layout specification says |
| ArtNode.RemoveChild | art.c:585-692 | The same of removal, up to the merging of a NODE4 |
| ArtTree.GetMeansPath | art.c:222-251 | A key found below a node begins with the node's whole path, though the descent compares none of it |
| ArtTree.ItemsAscend | art.c:756-802 | The tree is visited in ascending lexicographic order |
| ArtTree.EndsAreExtreme | art.c:254-317 | minimum() and maximum() are the first and the last leaf visited |
| ArtTree.AbsIsGet | art.c:756-802 | The visit lists every stored key once; listing and lookup agree |
| ArtOps.SearchIsGet | art.c:222-251 | Comparing only the ten stored bytes of each prefix neither hides a stored key nor invents one |
| ArtOps.PrefixMismatchIs | art.c:463-482 | The position returned is the first at which the key leaves the node's path, recovered from a leaf beyond ten bytes; it reaches the prefix length exactly when the key continues below |
| ArtOps.ShortenedIs | art.c:536-547 | Cutting a prefix, from the stored bytes or from a leaf, leaves an exact prefix and every lookup |
| ArtOps.SplitLeafIs | art.c:503-517 | Two leaves under a new node with their common prefix |
| ArtOps.InsertIs | art.c:484-567 | Insertion keeps every prefix exact, returns the old value, and sets the value of exactly one key |
| ArtOps.JoinedHeader | art.c:658-672 | The byte-by-byte concatenation in remove_child4 stores the first ten bytes of prefix, byte and child prefix |
| ArtOps.DeleteIs | art.c:694-734 | Deletion removes exactly the key and keeps every prefix exact; for an absent key the tree is unchanged |
| ArtMap.PrefixIsExact | art.c:463-567 | Every inner node's prefix length is the exact longest common prefix of its keys past the depth, and its first ten bytes are stored |
| ArtMap.SearchRefines | art.c:222-251 | Search is map lookup |
| ArtMap.InsertRefines | art.c:578-583 | Insertion is map update; the old value is returned, and size counts |
| ArtMap.DeleteRefines | art.c:744-753 | Deletion is map removal; the value is returned, and size counts |
| ArtMap.RunRefinesMap | art.c:222-753 | Every run of inserts, deletes and searches on keys of one length answers as a plain map, and size is its cardinality |
| ArtMap.ExtremesAreExtreme | art.c:308-317 | art_minimum and art_maximum return the least and the greatest stored key |
| ArtClass.IterIsVisit | art.c:756-802 | The loops over each of the four layouts apply the callback from left to right, up to its first non-zero answer, which is returned |
| ArtClass.IterAscends | art.c:756-816 | What the callback is applied to is the map: every pair once, in ascending order of the keys |
| ArtClass.RadixTree.Search | art.c:222-251 | The loop over node and depth |
| ArtClass.RadixTree.StoredMatch | art.c:191-199 | The comparison loop of check_prefix |
| ArtClass.RadixTree.Insert | art.c:578-583 | Map, old value and count after an insertion |
| ArtClass.RadixTree.Delete | art.c:744-753 | Map, value and count after a deletion |
| RBTree.Head.Rotate | tree.h:340-378 | A rotation at any place of the tree keeps all child and parent links and the order |
| RBTree.Head.InsertColor | tree.h:405-447 | From one red node in the wrong place to a balanced tree with a black root, in the same order |
| RBTree.Head.Insert | tree.h:595-623 | An equal element is returned and nothing changes; otherwise the element is added at its place in the order and all red-black invariants hold |
| RBTree.Head.RemoveColor | tree.h:449-525 | From one black node missing to a balanced tree in the same order; the loop ends |
| RBTree.Head.Splice | tree.h:543-553 | Unhooking a node with at most one child |
| RBTree.Head.Transplant | tree.h:556-567 | The successor takes over the removed node's place, colour and children, whether or not it was its child |
| RBTree.Head.RemoveInner | tree.h:536-574 | Removal of a node with two children |
| RBTree.Head.Remove | tree.h:527-592 | Exactly the given element leaves the in-order sequence; links, colours and black heights are sound |
| RBTree.Head.Next | tree.h:665-684 | The successor in order, NULL after the last |
| RBTree.Head.Min | tree.h:708-721 | The first element |
| RBTree.Head.Foreach | tree.h:735-738 | Iterating from the minimum meets every element once, in order |
| RBModel.UncleRed | tree.h:413-419 | Recolouring moves the one possible fault two levels up |
| RBModel.InnerChild | tree.h:420-425 | A rotation turns an inner child into an outer one |
| RBModel.OuterChild | tree.h:426-427 | A rotation of the grandparent ends the repair |
| RBModel.RedSibling | tree.h:457-461 | A red sibling is rotated up; the deficit stays, below a black sibling |
| RBModel.BlackNephews | tree.h:462-468 | Reddening the sibling moves the deficit up |
| RBModel.NearNephew | tree.h:470-479 | A rotation makes the far nephew red |
| RBModel.FarNephew | tree.h:480-486 | The last rotation repairs the whole tree, whatever the parent's colour |
| RBModel.SuccessorBal | tree.h:541-590 | Taking the successor from below leaves a deficit there exactly when it was black |
| RBModel.HeightBound | tree.h:405-447 | A balanced tree of n elements with a black root is at most 2 lg(n + 1) high |
| Basics.WithoutSorted | tree.h:527-592 | Dropping an element keeps search order |
| HashSort.MergeSorts | uthash.h:745-789 | Merging two sorted runs sorts them |
| HashSort.MergeIsStable | uthash.h:745-789 | and keeps equals in order, those of the first run first |
| HashSort.PassBlocks | uthash.h:733-791 | A pass over a list of sorted blocks doubles the blocks |
| HashSort.SortIsStableSort | uthash.h:719-804 | The passes together are a stable sort, for every list and every total preorder |
| HashTable.Table.SkipRun | uthash.h:735-743 | The for loop stops behind the run, or at the end of the list |
| HashTable.Table.MergeRuns | uthash.h:744-789 | Relinking next and prev in place merges the two runs onto the output |
| HashTable.Table.MergePass | uthash.h:728-794 | One pass, and whether it was the last |
| HashTable.Table.Sort | uthash.h:719-804 | Terminates with the insertion-order list a stable sorted permutation, prev inverse to next, head and tail right, and the whole table sound if it was; bucket chains are not in its frame |
| HashTable.Table.MoveItem | uthash.h:685-697 | One item to the front of its new chain; count, excess and multiplier |
| HashTable.Table.MoveChain | uthash.h:683-699 | All items of one old bucket |
| HashTable.Table.Expand | uthash.h:666-712 | Twice the buckets, every item on the chain of its hash, counts exact, the ideal length, the total excess and the ineffective-expansion counters; insertion order is not in its frame |
| HashChains.IdealIsCeiling | uthash.h:677-679 | The ideal chain length is items divided by buckets, rounded up |
| HashTable.Table.Add | uthash.h:173-196 | Appends to the insertion order and keeps both lists sound; bucket counts, multipliers and expansion statistics change as for a push onto a table, which is a fresh one if there was none |
| HashTable.Table.AddToBkt | uthash.h:611-622 | Pushes onto the bucket's chain; expands exactly when the count reaches ten times the multiplier plus one and expansion has not been given up |
| HashTable.Table.MakeTable | uthash.h:141-157 | A fresh table: 32 buckets with nothing in them, no ineffective expansion, expansion allowed |
| HashTable.Table.Delete | uthash.h:215-248 | Takes the item off both lists; its bucket counts one less and nothing else of the table's numbers changes; with the last item the table goes |
| HashTable.Table.DelInBkt | uthash.h:625-635 | Takes the item off its chain, wherever on it |
| HashTable.Table.Find | uthash.h:597-608 | An item with the key if there is one, else NULL |
| HashTable.Table.Fsck | uthash.h:278-328 | The integrity check, with its walks along every chain and along the list, never finds a wrong hh_prev, bucket count, prev or item count |
| HashTable.Table.FsckAgrees | uthash.h:306-309 | The bucket counts add up to the number of items in the list |
| HashRun.Run | uthash.h:173-248 | Any run of adds, deletions, sorts and finds answers as a plain sequence of items does, leaves the table sound, and takes its numbers from one operation to the next as specified |
| HashRun.GivesUpAfterTwo | uthash.h:705-710 | In a run from an empty table, expansion is given up exactly after the last two expansions since the table was made were ineffective; there are 32 buckets, doubled by each expansion |
| SplayTree.Head.Splay | tree.h:207-240 | The in-order sequence is unchanged, and the root is equal to the key or next to where it would be: all smaller elements on the left, all greater on the right |
| SplayTree.Head.Rotate | tree.h:86-96 | The zig-zig rotation at the root |
| SplayTree.Head.LinkTo | tree.h:98-108 | The root joins the partial tree of its side |
| SplayTree.Head.Assemble | tree.h:110-115 | The two partial trees and the root's children become one search tree; the dummy node is not part of it |
| SplayTree.DividedAt | tree.h:216-239 | A search that has stopped divides the tree at its root |
| SplayTree.Head.Insert | tree.h:162-184 | An equal element is returned and is the root; otherwise exactly the new one is added, in order, and is the root |
| SplayTree.Head.Remove | tree.h:186-205 | Exactly the element equal to the key is dropped, else nothing |
| SplayTree.Head.Find | tree.h:126-135 | The equal element, now the root, if there is one |

## Left out

- Allocation failure, alignment and the low pointer bit of `critbit_common.h` and `art.c`: pointers carry their kind.
- Hardware memory order: the steps of the crit-bit protocol are sequentially consistent, and its barriers are no steps.
- Looking a key up in an empty crit-bit tree, which the code does not guard against.
- CritbitHeap.CritbitRoot.FreeUnlinked: the comparison of child strings after the mutex is released is modelled sequentially only; in the protocol the deleted node and leaf are freed as such.
- `critbit_clear`, `dictEmpty`, `dictRelease`, `destroy_art_tree`, `HASH_CLEAR`: memory release only.
- The protocol's writer waits for readers by a lock that is free once no reader holds it; fairness and progress are not stated.
- Dictionary chains are sequences, not linked cells; entry addresses are kept as identifiers, so that what an iterator saved stays comparable.
- DictClass.Dictionary.DictExpand: sizes are below the point where `unsigned long` arithmetic overflows (twice the entries, and the argument, below LONG_MAX). The code's own bound is lower: `rehashidx` and the index that `_dictKeyIndex` returns are of type `int`, so tables of more than 2^31 buckets are outside of what the code supports, and are not modelled as truncated.
- DictClass.Dictionary.DictResize: the `int` that holds the entry count is not truncated.
- DictClass.Dictionary.DictRehash: a negative number of steps is not modelled.
- DictClass.Dictionary.DictScan: on an empty dictionary it returns 0 at once, so the scan theorems speak of dictionaries with entries.
- DictIterator.OpPlaces: an entry's `id` names the entry, not its storage; that the allocator may give the storage of a deleted entry to a new one is not modelled.
- DictIterator.IterationIsExact: no direct call of `dictRehash` during the iteration, and only returned entries are deleted, as the source demands.
- Unsafe iterators and `dictFingerprint`, `dictGetRandomKey`, `dictRehashMilliseconds`, `dictReplaceRaw`: mixing, randomness, clocks, or easy variants.
- Hash functions of all maps: mixing quality is not stated.
- Radix-tree keys of different lengths in one tree, and stored bytes from 128 on: reads past a key's end and the mixed signedness of comparisons are not modelled.
- ArtOps.InsertIs: the recursion that rewrites `*ref` on its way returns the new node instead; the in-place array code of single nodes is `ArtNode`, and the two meet in the layout functions of `ArtBody`.
- ArtOps.DeleteIs: as for insertion, the new node is returned instead of stored through `*ref`.
- `art_iter_prefix`, and the wrapper with a read-write lock at the end of `art.c`.
- SSE instructions of the NODE16 are modelled as the loops they compute.
- `RB_NFIND`, `RB_PREV`, `RB_FIND` and the maximum: mirror images or simpler forms of what is there.
- `RB_AUGMENT`, which expands to nothing, and the walk to the root that only calls it.
- `SPLAY_NEXT` and `SPLAY_MINMAX`; amortised cost.
- HashTable.Table.Sort: the doubling run length is unbounded, so lists beyond half the range of an unsigned are not distinguished.
- HashTable.Table.Add: the key is not looked up first, as in the source; bloom filter, key emission and `HASH_SELECT` are left out.
- HashTable.Table.Expand: bucket counts and numbers are unbounded.
- `queue.h`, `array.c`, `none.c`, `stlmap.cc`, `stluomap.cc`, `sparsehash.cc`, `helper.c` and the adapters `bsdtree.c` and `uthash.c`: benchmark glue, or libraries not in this repository.
