# Verified model of the C toolbox

The repository is a collection of small, independent C components without input or output in
their hard parts. This project models ten of them in Dafny, in their own form (objects whose
links, counts and colours are rewritten in place, arrays, loops, parsers), and proves what each
of them is for. `dafny verify dfyconfig.toml` checks everything.

**Counted 2-3-4 tree, tree234.c** (`CountedShape`, `CountedEnd`, `CountedTree`, `CountedSearch`,
`CountedBalance`, `CountedDelete`, `CountedOrder`). Nodes are objects with four children, four
counts, three elements and a parent pointer. `CountedShape` has the shape of a tree as a value,
and a path with a hole in it, which stands for the rest of the tree while the code works on one
node; `CountedTree` says when the links in memory are those of a path and a subtree. Insertion and
deletion by index are insertion into and deletion from a sequence; sorted insertion, deletion and
`findrelpos234` are those of a strictly sorted sequence; the search cursor keeps the insertion
point between its bounds at every step.

**Red-black tree, rbtree.c** (`RbShape`, `RbTree`). Rotations, insertion and erasure with their
fix-up loops, first, next and previous, and erasing while walking. In-order sequences are
sequences of node objects, so the results speak of the identity of nodes. `RbShape` holds
the pure part: red-black invariants with one flaw that a loop moves up, and the bound on the height.

**Memory map, phy_meminfo_parser.c** (`MemoryTable`, `MemoryMap`). `add_mem_map` and
`release_map` as clients of the red-black tree and of the circular lists. The index is a table
of entries in `strcmp` order, each with its ranges and their size, and `MemoryTable` proves over
every run what the table promises; `MemoryMap.AddAll` is such a run in the heap.

**Circular lists, list.h** (`CircularList`). A ring is a head and the sequence of its entries,
linked in both directions. Cutting and splicing are inverse, down to every link.

**Heap, port_memory.c** (`PoolBlocks`, `PoolRuns`, `PortMemory`). Memory is a map from 32-bit
addresses to words. `PoolBlocks` and `PoolRuns` specify the pool as a tiling by blocks and prove
what holds over every run of `mem_alloc` and `mem_free`; `PortMemory` has the code with its free
list in the block headers and proves that it is what the specification says. The header is 8
bytes like the alignment; the threshold for splitting lets a rest of 8 bytes become a block
that is only a header.

**Gaussian elimination, mathlib.c** (`Gaussian`). The flat matrix is changed in place, over exact
real numbers: rounding is not modelled. The pivot search compares every row with the first
candidate and not with the best so far, so the pivot need not be the greatest of its column. It
is non-zero whenever any candidate is, and that is enough. The comment at mathlib.c:53-54 calls
it the row with the greatest entry: `Gaussian.PivotGreatest` says exactly when that is so, and
`Gaussian.PivotNotGreatest` has a column for which it is not.

**MurmurHash3, murmurhash3.c** (`MurmurWords`, `Murmur3`, `MurmurAnswers`). All three variants, on
bit vectors. Every round, the treatment of the tail and the finalizers lose nothing, by inverses
of the odd multipliers modulo 2^32 and 2^64. Hence a key has different hashes for different seeds,
and keys of equal length that differ in one block or only in the tail never have the same hash,
and neither do a key and itself with zero bytes behind it in the same tail. Known answers fix the
constants.

**Base64, base64.c** (`Base64`). Encoder and decoder against sections 4 and 5 of RFC 4648, with
line breaks after 64 columns, and the round trip. Only what the encoder can write is claimed to
be decoded faithfully: the decoder's tests for bad characters compare unsigned values with 0 and
never hold, so what it does with other text is modelled as it is.

**Time zones, tzset.c** (`TzText`, `TzReading`, `TzRoundTrip`, `TimeZone`). Parser and printer of
TZ strings of section 8.3 of the Base Definitions of POSIX.1-2017. `TzText` specifies both on
values, `TimeZone` has the code that moves cursors and fills structures and buffers. Printing and
reading again does not restore everything that is accepted: `TzRoundTrip.RoundTrip` says exactly
when it does, and `TzRoundTrip.ZeroWest` has an input for which it does not. `TzReading` has what
the texts mean where the writer does not go: defaults, limits and errors.

**Ring buffer, queue.c** (`RingQueue`). Batched enqueue and dequeue on a byte array refine a
first-in-first-out queue of blocks.

Where code and comments disagree, the code is modelled. The comment at tree234.c:475 says that
the upper bound of the index is checked. `CountedEnd` distinguishes what happens past the end: an
inner root refuses the index if and only if it exceeds the count by more than the number of
its unused element places; otherwise it picks a child that it does not have, puts the element there
and loses its last subtree. A single leaf appends the element. `CountedTree.Tree234.AddAt` says so
of the code, and `CountedOrder.LoseElement` is a run of five insertions that loses an element.

`Sequences` has laws of concatenation, products and powers that several models use.

## Model

| member | source | states |
|---|---|---|
| CountedTree.Tree234.Index | tree234.c:482-510 | returns the element at the index in the in-order sequence, NULL outside it |
| CountedTree.Tree234.AddAt | tree234.c:133-460 | insertion by index into any tree at any index except one that makes a single leaf read past its children: in range s becomes s[..index] + [e] + s[index..] with counts, parents, equal leaf depth and 1 to 3 elements per node kept; past the end NULL and no change if and only if the root refuses, s + [e] for a leaf, and otherwise a heap that holds s without its last subtree and e, which is no valid tree |
| CountedTree.Tree234.AddPos | tree234.c:469-476 | addpos234: NULL and no change for a negative index or a tree with a comparison function, otherwise what add234_internal does, past the end too |
| CountedTree.Tree234.PutAbsent | tree234.c:246-329 | inserting at an absent child of the root: e is the last element, the subtree before it is gone, and all other links are those of the tree before |
| CountedEnd.CroppedFlat | tree234.c:252-258 | what such an insertion leaves of the sequence: everything but the last subtree, and e |
| CountedEnd.CroppedInner | tree234.c:252-258 | in an inner node at least one element is lost, and the result is no 2-3-4 tree of any height |
| CountedEnd.CroppedLeaf | tree234.c:252-258 | in a leaf nothing is lost and the result is a 2-3-4 tree |
| CountedEnd.AimFacts | tree234.c:165-200 | the tests of one round decide whether an index is in range, refused or past the places of a leaf |
| CountedOrder.LoseElement | tree234.c:469-476 | with 1, 2, 3, 4 in the tree, adding 5 at index 5 returns 5 and loses 4 |
| CountedTree.Tree234.AddSorted | tree234.c:133-460 | sorted insertion: an element that compares equal is returned and nothing changes; otherwise e goes in at its rank |
| CountedTree.Tree234.Add | tree234.c:462-468 | add234: NULL and no change without a comparison function, otherwise sorted insertion |
| CountedTree.Tree234.Climb | tree234.c:229-417 | the splitting loop: the elements around the hole stay in order with the carried element between the two carried subtrees, all the way up or until a node has room |
| CountedTree.Tree234.SplitUp | tree234.c:313-416 | one split: node with five subtrees becomes two sound ones around the element that moves up, one level higher |
| CountedTree.Tree234.Place | tree234.c:238-312 | a node with room takes the carried element and the two carried subtrees at its place |
| CountedTree.Tree234.Repair | tree234.c:425-434 | the counts on the path to the root become exact again |
| CountedTree.Tree234.GrowRoot | tree234.c:435-453 | the new root: its sequence is left + [e] + right, its two children hang below it with exact counts |
| CountedTree.Tree234.FindPlace | tree234.c:153-220 | the empty child found for an index in range has exactly that many elements before it; past the end an absent child of the root, or nothing if and only if the root refuses the index |
| CountedTree.Tree234.FindSorted | tree234.c:153-220 | an equal element, or the empty child with exactly the smaller elements before it |
| CountedTree.SplitNode | tree234.c:325-388 | the four positions of a split at once: the two nodes hold the first three and the last two of five subtrees, the first two and the last of four elements; the third moves up |
| CountedTree.DescendInsert | tree234.c:179-200 | in range, the subtree chosen and the rest of the index add up to the index; past the end, NULL if and only if index > count + 3 - elements, otherwise an absent child is chosen |
| CountedTree.Descend | tree234.c:494-508 | index = elements before the chosen subtree or element + the rest, for the tests shared by index234 and delpos234_internal |
| CountedTree.CompareAt | tree234.c:203-216 | an equal element of the node, or the subtree between the last smaller and the first greater element |
| CountedTree.CountTree | tree234.c:92-131 | the stored counts add up to the number of elements |
| CountedTree.LookUp | tree234.c:492-509 | the element at the index of the sequence of the subtree |
| CountedTree.Tree234.Up | tree234.c:425-434 | a tree whose counts are right below a path is right as a whole |
| CountedShape.WeaveAt | tree234.c:50-59 | the sequence of a node around its k-th subtree |
| CountedShape.SlotAt | tree234.c:494-508 | prefix sums of the counts place every subtree and element in the sequence |
| CountedShape.SplitFacts | tree234.c:325-398 | splitting keeps the sequence, the heights and the set of nodes |
| CountedShape.EnterFacts | tree234.c:153-220 | entering a child keeps the whole sequence and what is known of heights and nodes |
| CountedShape.NewRootFacts | tree234.c:435-453 | a root above two halves of equal height is sound and has their sequence around its element |
| CountedSearch.SearchState.Start | tree234.c:610-615 | the cursor brackets the whole sequence and looks at an element of it |
| CountedSearch.SearchState.Step | tree234.c:617-679 | one step: the bracket shrinks to the part on the chosen side of the current element and still contains the insertion point; at an empty bracket the index is that point |
| CountedSearch.SearchState.Bracket | tree234.c:610-679 | 0 <= lo <= index <= hi <= count; no element exactly when lo = hi; the element is the one at index |
| CountedSearch.SearchState.Descend | tree234.c:649-652 | going into a child keeps the bracket |
| CountedSearch.FindRelPos | tree234.c:522-596 | for EQ, LT, LE, GT, GE, with a NULL e for LT and GT: the element and the index are those a linear scan gives, NULL exactly when no element is in that relation |
| CountedOrder.AnswersMean | tree234.c:522-596 | in a sorted sequence that answer is the nearest element that is equal, less, at most, greater, at least |
| CountedOrder.AnswersAtEnds | tree234.c:547-563 | with a NULL query LT gives the last element and GT the first |
| CountedSearch.Search | tree234.c:540-570 | the loop ends at an equal element or at the only place where one could stand |
| CountedDelete.DeleteAt | tree234.c:685-1022 | delete by index: returns s[index], leaves s[..index] + s[index + 1..], keeps shape, counts and parents; terminates since the height falls each round |
| CountedDelete.DelPos | tree234.c:1023-1028 | delpos234: deletion by index, and NULL and no change outside the sequence |
| CountedDelete.Del | tree234.c:1029-1035 | removes one element that compares equal, if there is one, and returns it |
| CountedDelete.EnterKid | tree234.c:728-879 | on the way down every node entered below the root has at least two elements, and the index still names the same element after a borrow or a merge |
| CountedDelete.BorrowLeft | tree234.c:742-766 | case 3a left: element and subtree move over, counts and parent pointers follow, the index moves along |
| CountedDelete.BorrowRight | tree234.c:781-800 | case 3a right: element and subtree move over from the right sibling, counts and parent pointers follow |
| CountedDelete.MergeStep | tree234.c:822-876 | cases 3b and 2c: two children are merged around an element, the gap is closed, an emptied root is replaced |
| CountedDelete.MergeKids | tree234.c:832-864 | the merge in the fields of the three nodes, whichever of the two children stays |
| CountedDelete.RemoveLeft | tree234.c:852-864 | closing the gap from the left keeps the other subtrees, counts and elements in order |
| CountedDelete.RemoveRight | tree234.c:990-1002 | closing the gap from the right keeps the other subtrees, counts and elements in order |
| CountedDelete.Walk | tree234.c:696-880 | the descent ends at the node that holds the wanted element, without changing the sequence |
| CountedDelete.RemoveLeafCase | tree234.c:905-928 | case 1: the element leaves the leaf and every count on the way up falls by one |
| CountedDelete.Lower | tree234.c:920-927 | the upward loop makes all counts exact after a removal below |
| CountedDelete.Overwrite | tree234.c:929-974 | cases 2a and 2b: overwriting the element by its neighbour and then removing the neighbour removes the element |
| CountedDelete.MergeCase | tree234.c:975-1020 | case 2c: the element sought stands behind the left child's elements in the merged node |
| CountedDelete.InnerCase | tree234.c:929-1020 | which of the three applies; the search goes on one level lower for the same result |
| CountedDelete.LastElement | tree234.c:939-947 | the last element of a subtree |
| CountedDelete.FirstElement | tree234.c:959-962 | the first element of a subtree |
| CountedDelete.Round | tree234.c:881-1020 | one round either finishes with the sequence without the element or goes one level down |
| CountedBalance.BorrowedLeftFacts | tree234.c:742-766 | borrowing from the left keeps sequence, heights and nodes of the parent's subtree |
| CountedBalance.BorrowedRightFacts | tree234.c:781-800 | borrowing from the right keeps sequence, heights and nodes of the parent's subtree |
| CountedBalance.MergedAtFacts | tree234.c:822-876 | merging two children keeps sequence, heights and nodes, with one element fewer in the parent |
| CountedBalance.LeafWithoutFacts | tree234.c:911-915 | a leaf without one of its at least two elements is sound and has the sequence without it |
| CountedBalance.ReplacedFacts | tree234.c:948-974 | replacing an element changes the sequence in one place only |
| CountedBalance.RemovedByCopy | tree234.c:929-974 | copying the neighbour over an element and removing the neighbour is removing the element |
| CountedOrder.Run | tree234.c:462-468 | after any run of add234 and del234 under a strict total order the tree is strictly sorted and holds what the run prescribes |
| CountedOrder.DelSorted | tree234.c:1029-1035 | del234 on a sorted tree removes the element equal to e, at its rank |
| CountedOrder.ApplySorted | tree234.c:462-468 | the specification of a run keeps the sequence strictly sorted |
| CountedOrder.InsertedSorted | tree234.c:203-216 | inserting at the rank keeps the sequence strictly sorted and adds that element only |
| CountedOrder.DeletedSorted | tree234.c:1029-1035 | deleting at the rank keeps the sequence strictly sorted and removes that element only |
| CountedOrder.EqualAtRank | tree234.c:203-216 | an equal element stands at the rank |
| CountedOrder.SizeBounds | tree234.c:50-59 | a tree of height h has between 2^h - 1 and 4^h - 1 elements |
| RbTree.RbRoot.RotateLeft | rbtree.c:4-25 | a left rotation keeps the in-order sequence and all links, and exchanges the two nodes as drawn |
| RbTree.RbRoot.RotateRight | rbtree.c:27-48 | a right rotation keeps the in-order sequence and all links, and exchanges the two nodes as drawn |
| RbTree.RbRoot.InsertColor | rbtree.c:50-113 | from one red node that may have a red parent to a red-black tree with the same in-order sequence |
| RbTree.RbRoot.InsertStep | rbtree.c:57-110 | one round of the loop: the violation moves two levels up or is gone |
| RbTree.RbRoot.LinkNode | rbtree.h:53-60 | the node is a red leaf in the hole |
| RbTree.RbRoot.Insert | rbtree.c:50-113 | linking and recolouring puts exactly that node at its place in the in-order sequence and keeps the red-black invariants and parent links |
| RbTree.RbRoot.EraseColor | rbtree.c:115-193 | the fix-up loop turns a tree with one black missing at the hole into a red-black tree with the same in-order sequence |
| RbTree.RbRoot.EraseStepLeft | rbtree.c:124-154 | one round with the deficit on the left: paid off, or one level higher |
| RbTree.RbRoot.EraseStepRight | rbtree.c:158-188 | one round with the deficit on the right: paid off, or one level higher |
| RbTree.RbRoot.RaiseSiblingLeft | rbtree.c:125-131 | a red sibling is rotated away |
| RbTree.RbRoot.PayLeft | rbtree.c:148-151 | the last rotation pays the deficit |
| RbTree.RbRoot.Unlink | rbtree.c:200-255 | the node is out of the tree, no other node has changed its identity or order, and one black may be missing where it was |
| RbTree.RbRoot.MoveSuccessor | rbtree.c:206-239 | with two children: the successor takes its place, links and colour |
| RbTree.RbRoot.TakeOut | rbtree.c:242-255 | with at most one child: that child takes its place |
| RbTree.RbRoot.Erase | rbtree.c:195-260 | in-order sequence without exactly that node, black root, no red child of a red node, equal black heights, consistent parent links |
| RbTree.RbRoot.First | rbtree.c:333-343 | the first node in order, or null |
| RbTree.RbRoot.Next | rbtree.c:357-382 | the node after it in order, or null |
| RbTree.RbRoot.Prev | rbtree.c:385-408 | the node before it in order, or null |
| RbTree.EraseHead | phy_meminfo_parser.c:245-248 | the successor taken before the erasure is the first node after it |
| RbTree.EraseAll | phy_meminfo_parser.c:244-248 | the loop visits every node once, in order, and leaves an empty tree |
| RbShape.PlugRedBlack | rbtree.c:50-113 | the invariants of the whole tree follow from those of a subtree and of its surroundings |
| RbShape.RedPushedUpSound | rbtree.c:62-69 | recolouring with a red uncle moves the violation up |
| RbShape.TakenOutSound | rbtree.c:242-255 | what is missing after a node with at most one child is taken out |
| RbShape.SuccessorMovedSound | rbtree.c:206-239 | what is missing after the successor has moved |
| RbShape.HeightBound | rbtree.c:50-113 | 2^height <= (n + 1)^2 |
| MemoryMap.MemMap.AddMemMap | phy_meminfo_parser.c:68-122 | success exactly when the needed allocations succeed; then the table has the range at its stable place under its name, otherwise nothing but perhaps an empty new entry; what is linked anew is new |
| MemoryMap.AddAll | phy_meminfo_parser.c:68-122 | a run of successful calls on an empty map, in the heap, makes the table that the specification of the run gives |
| MemoryMap.MemMap.FindNode | phy_meminfo_parser.c:78-91 | the node of that name, or the only place in the tree where it keeps the names in order |
| MemoryMap.MemMap.AddNode | phy_meminfo_parser.c:93-102 | the table with one empty entry in name order |
| MemoryMap.MemMap.AddRange | phy_meminfo_parser.c:103-119 | the range in its list, size grown by its bytes modulo 2^64, every other entry unchanged |
| MemoryMap.MemMap.FindSlot | phy_meminfo_parser.c:108-114 | the first range that starts later, or the list head |
| MemoryMap.MemMap.ReleaseMap | phy_meminfo_parser.c:237-270 | reports every entry of the table once, with its ranges and size, names in dictionary order, and empties the tree |
| MemoryMap.MemMap.ListRanges | phy_meminfo_parser.c:258-264 | walking the list gives the ranges in order |
| MemoryTable.AddedSound | phy_meminfo_parser.c:68-122 | names stay unique and in strcmp order, ranges sorted by start, each size the sum of its ranges |
| MemoryTable.InsertedAt | phy_meminfo_parser.c:108-116 | ranges with equal starts keep the order of insertion |
| MemoryTable.InsertedBytes | phy_meminfo_parser.c:116-117 | insertion adds exactly one range and its bytes |
| MemoryTable.RunSound | phy_meminfo_parser.c:68-122 | over any run of additions: names unique and ordered, ranges sorted, each size the sum of its ranges modulo 2^64, and the ranges in the table have exactly as many bytes as were added |
| MemoryTable.RunSizes | phy_meminfo_parser.c:119 | over any run the sizes in the table add up to all bytes added, modulo 2^64 |
| MemoryTable.RunExact | phy_meminfo_parser.c:119 | for ranges that do not end before they start, and fewer than 2^64 bytes in all, every size is exactly the sum of its ranges and the sizes add up to exactly the bytes added |
| MemoryTable.RunStable | phy_meminfo_parser.c:108-119 | over any run: the ranges of a name are those given for it, sorted by start, equal starts in the order given |
| MemoryTable.AddedSpans | phy_meminfo_parser.c:103-119 | one call changes the ranges of one name |
| MemoryTable.Narrow | phy_meminfo_parser.c:83-90 | one strcmp result rules out one side of the table as the place of a name |
| MemoryTable.StrCmpTrans | phy_meminfo_parser.c:83 | strcmp orders the names transitively |
| MemoryTable.StrCmpMeans | phy_meminfo_parser.c:83 | strcmp is negative exactly when after a common beginning the first name ends or has the lesser character, and positive exactly when the second one does |
| MemoryTable.NamesInOrder | phy_meminfo_parser.c:83-90 | the names of a table stand in that order |
| MemoryTable.BytesCount | phy_meminfo_parser.c:117 | the bytes counted for a range are its addresses, both ends included |
| CircularList.Link | list.h:62-68 | the new entry stands between the two, in both directions, and the rest of the ring is untouched |
| CircularList.ListAdd | list.h:81-84 | the entry is inserted behind the given member of the ring |
| CircularList.ListAddTail | list.h:94-97 | the entry is inserted before the given member, which is last place when that is the head |
| CircularList.Unlink | list.h:106-110 | the ring without the entry |
| CircularList.ListDelInit | list.h:154-158 | the ring without the entry, which is a ring of its own |
| CircularList.ListCutPosition | list.h:255-266 | two rings: the entries up to the given one, and the rest; an empty list stays as it is |
| CircularList.Cut | list.h:229-239 | for an entry other than the head: two rings, split right behind that entry |
| CircularList.Splice | list.h:268-279 | the entries of one ring between two neighbours of another |
| CircularList.ListSpliceInit | list.h:310-316 | the entries of the list in front of those of the head, and an empty list |
| CircularList.ListSpliceTailInit | list.h:326-332 | the entries of the list behind those of the head, and an empty list |
| CircularList.CutThenSplice | list.h:255-316 | cutting and splicing back restores every next and prev link |
| CircularList.OneRing | list.h:40-42 | the links determine the sequence of entries |
| PortMemory.Heap.Init | port_memory.c:35-69 | one free block from the aligned start to the end marker; both byte counts are its size |
| PortMemory.Heap.Limits | port_memory.c:43-57 | the aligned bounds of the pool, without wrap-around |
| PortMemory.Heap.PoolEnds | port_memory.c:43-57 | the pool starts at its first multiple of 8 and ends at the last one that leaves room for a header |
| PortMemory.Heap.Insert | port_memory.c:72-102 | the block is linked in address order and joined with its free neighbours on either side |
| PortMemory.Heap.FindPlace | port_memory.c:77-79 | the last free block before it, or the list head |
| PortMemory.Heap.Link | port_memory.c:81-101 | the four cases of joining: exactly which headers are written and with which size and next link |
| PortMemory.Heap.LeftNeighbour | port_memory.c:81-85 | the address test holds exactly when the block before is free |
| PortMemory.Heap.RightNeighbour | port_memory.c:87-97 | the address test holds exactly when the block behind is free or the end |
| PortMemory.Heap.Search | port_memory.c:124-129 | the lowest free block that is large enough, or the end marker |
| PortMemory.Heap.Take | port_memory.c:133-138 | unlinking, and cutting off the rest whenever there is one, even if it is only a header; the block taken has exactly the size asked for |
| PortMemory.CutExact | port_memory.c:135-140 | for sizes that are multiples of 8 the threshold cuts off a rest exactly when there is one |
| PortMemory.Heap.Grant | port_memory.c:133-148 | the block is carved, marked and unlinked, and the byte counts follow |
| PortMemory.Heap.Alloc | port_memory.c:104-156 | the heap is the one the specification of mem_alloc gives, and so is the returned address; a grant takes the request, 8 bytes and less than 8 more, and the rest of the free block stays free |
| PortMemory.Heap.Free | port_memory.c:158-177 | the heap is the one the specification of mem_free gives, for a payload, NULL, or an address behind words that are not the header of a live block, such as one freed before and joined to its left neighbour; such words are not changed, and a second free is always possible |
| PortMemory.Heap.FreeAgain | port_memory.c:167-168 | an immediate second free leaves every word of memory as it is |
| PortMemory.Heap.Write | port_memory.c:132 | a client's write to its payload keeps the heap intact |
| PortMemory.InsertLinked | port_memory.c:72-102 | the free list after an insertion runs through exactly the free blocks in address order |
| PortMemory.Unlinked | port_memory.c:133 | the free list without the block taken still runs through all other free blocks |
| PoolBlocks.Conservation | port_memory.c:66-67 | live and free bytes add up to the pool |
| PoolBlocks.CarvedTiled | port_memory.c:135-140 | carving keeps the blocks tiling the pool |
| PoolBlocks.PartsExact | port_memory.c:135-140 | for sizes that are multiples of 8 the rest becomes a free block exactly when there is one |
| PoolBlocks.CarvedSpaced | port_memory.c:135-140 | carving makes no two free blocks neighbours |
| PoolBlocks.CarvedLives | port_memory.c:135-148 | after carving there is one live block more and all others are unchanged |
| PoolBlocks.CarvedTotals | port_memory.c:142 | the free bytes fall by the size of the granted block |
| PoolBlocks.ReleasedTiled | port_memory.c:81-97 | joining keeps the blocks tiling the pool |
| PoolBlocks.ReleasedSpaced | port_memory.c:81-97 | joining leaves no two free neighbours |
| PoolBlocks.ReleasedLives | port_memory.c:167-172 | exactly the freed block is gone from the live ones |
| PoolBlocks.ReleasedTotals | port_memory.c:171 | the free bytes grow by the size of the freed block |
| PoolBlocks.FullyCoalesced | port_memory.c:63-67 | without live blocks there is one free block |
| PoolBlocks.CarveThenRelease | port_memory.c:104-177 | freeing a block just granted gives the old tiling back |
| PoolRuns.FirstFitServes | port_memory.c:115-131 | mem_alloc fails exactly when the size is zero, has its top bit set, or every free block is smaller than the size and 8 bytes; otherwise it takes the lowest block that is not |
| PoolRuns.AllocationReturns | port_memory.c:132-148 | a payload at a multiple of 8, in a block inside the pool of at least 8 and less than 16 bytes more than requested, disjoint from every live block; the other live blocks are unchanged |
| PoolRuns.AllocationTakes | port_memory.c:135-148 | exactly the granted block leaves the free bytes, at least 8 and less than 16 more than requested, and what is left of the free block is a free block |
| PoolRuns.NewPoolServes | port_memory.c:35-69 | two requests of 16 bytes to a new pool are served at its start and 24 bytes later |
| PoolRuns.FreeRemoves | port_memory.c:158-177 | freeing removes exactly the live block with that payload |
| PoolRuns.FreeTwice | port_memory.c:167-168 | in the specification a second free changes nothing; what the code reads on it is the subject of Heap.Free |
| PoolRuns.AllocThenFree | port_memory.c:104-177 | freeing what was just allocated gives back the same blocks |
| PoolRuns.RunSound | port_memory.c:104-177 | in every run: tiling, no free neighbours, live and free bytes make up the pool |
| PoolRuns.LeastEver | port_memory.c:143-145 | the recorded minimum is the least number of free bytes there ever was |
| PoolRuns.FreeingAllCoalesces | port_memory.c:158-177 | freeing all live blocks in any order leaves the single initial block |
| PoolRuns.RunThenFreeAll | port_memory.c:63-67 | after any run, freeing all live blocks in any order restores the initial block and the initial number of free bytes |
| Gaussian.GaussianElimination | mathlib.c:32-107 | returns 0 with the unique solution of the original system in res, or -1 when no vector is its unique solution; -1 and no change for null arguments, and for no rows |
| Gaussian.Triangulate | mathlib.c:47-88 | triangular, with the same solutions |
| Gaussian.ClearColumn | mathlib.c:48-86 | one column cleared below the diagonal, with the same solutions |
| Gaussian.FindPivot | mathlib.c:48-61 | the row chosen is the last row whose entry beats that of row j in absolute value, or j |
| Gaussian.PivotNonzero | mathlib.c:57-60 | the pivot is zero only if the whole rest of the column is |
| Gaussian.ChosenOnce | mathlib.c:57-60 | there is only one such row |
| Gaussian.PivotGreatest | mathlib.c:53-60 | the chosen entry is the greatest of the candidates if and only if no row between row j and the chosen one has a greater entry |
| Gaussian.PivotNotGreatest | mathlib.c:53-60 | in a column 1, 3, 2 the 2 is chosen, and it is not the greatest |
| Gaussian.SwapRows | mathlib.c:64-71 | two rows exchanged, although only from column j on |
| Gaussian.ReduceRow | mathlib.c:80-85 | a row replaced by a multiple of it minus the pivot row |
| Gaussian.ReduceKeeps | mathlib.c:80-85 | adding a multiple of one row to a non-zero multiple of another keeps the set of solutions |
| Gaussian.SwapKeeps | mathlib.c:64-71 | exchanging rows keeps the set of solutions |
| Gaussian.BackSubstitute | mathlib.c:91-104 | 0 with the unique solution of a triangular system, or -1 with a zero on the diagonal |
| Gaussian.OneMoreUnknown | mathlib.c:98-103 | each step determines one more unknown uniquely |
| Gaussian.Singular | mathlib.c:93-96 | a zero on the diagonal of a triangular system means a null vector |
| Gaussian.NotUnique | mathlib.c:93-96 | with a null vector no solution is the only one |
| Gaussian.NoneUnique | mathlib.c:93-96 | a triangular system with a zero on the diagonal has no unique solution |
| Murmur3.MurmurX86 | murmurhash3.c:55-89 | the loop and the tail switch compute a fold of rounds over the little-endian blocks, then the finish on the tail read as a block filled up with zeros |
| Murmur3.SeedsX86 | murmurhash3.c:55-89 | for a fixed key different seeds give different hashes |
| Murmur3.NoCollisionX86 | murmurhash3.c:55-89 | keys of equal length that differ in one block, or only in the tail, never hash equal |
| Murmur3.RoundX86Lossless | murmurhash3.c:70-71 | the round can be undone in the state and in the block |
| Murmur3.FinishX86Lossless | murmurhash3.c:75-88 | equal results of the finish have equal states exactly when they have equal tails |
| MurmurAnswers.TestX86 | murmurhash3.c:55-89 | "test" with seed 0 hashes to 0xba6bd213 |
| MurmurAnswers.ZerosX86 | murmurhash3.c:55-89 | four zero bytes with seed 0 hash to 0x2362f9de |
| MurmurAnswers.ShortX86 | murmurhash3.c:74-88 | no byte with seed 0 hashes to 0, one zero byte to 0x514e28b7 |
| MurmurAnswers.TailX86 | murmurhash3.c:69-88 | a known answer for a block and a tail of three bytes |
| MurmurAnswers.TwoBlocksX86 | murmurhash3.c:69-72 | a known answer for two blocks in their order |
| MurmurAnswers.LengthX86 | murmurhash3.c:88 | a key and the same key with zero bytes behind it in the same tail hash differently |
| Murmur3.MurmurX86Four | murmurhash3.c:92-211 | the 128-bit hash of 32-bit words is a fold over 16-byte blocks and a finish on the tail as four words |
| Murmur3.SeedsX86Four | murmurhash3.c:92-211 | for a fixed key different seeds give different hashes |
| Murmur3.NoCollisionX86Four | murmurhash3.c:92-211 | keys that differ inside one 16-byte block never hash equal |
| Murmur3.StirFourLossless | murmurhash3.c:125-144 | the four-word round can be undone in the state and in the block |
| Murmur3.FinishFourLossless | murmurhash3.c:147-205 | equal results of tail, mixing and finalizers have equal states exactly when they have equal tails |
| MurmurAnswers.AnswerX86Four | murmurhash3.c:92-211 | a known answer for a block and a tail of 15 bytes |
| MurmurAnswers.LengthX86Four | murmurhash3.c:187-190 | zero bytes behind a key in the same tail change the hash |
| Murmur3.MurmurX64 | murmurhash3.c:214-293 | the 128-bit hash of 64-bit words is a fold over 16-byte blocks and a finish on the tail as two words |
| Murmur3.SeedsX64 | murmurhash3.c:214-293 | for a fixed key different seeds give different hashes |
| Murmur3.NoCollisionX64 | murmurhash3.c:214-293 | keys that differ inside one 16-byte block never hash equal |
| Murmur3.StirTwoLossless | murmurhash3.c:237-250 | the two-word round can be undone in the state and in the block |
| Murmur3.FinishTwoLossless | murmurhash3.c:253-289 | equal results of tail, mixing and finalizers have equal states exactly when they have equal tails |
| MurmurAnswers.AnswerX64 | murmurhash3.c:214-293 | a known answer for a block and a tail of 15 bytes |
| MurmurAnswers.LengthX64 | murmurhash3.c:280-281 | zero bytes behind a key in the same tail change the hash |
| MurmurWords.FmixBack | murmurhash3.c:33-53 | both finalizers are undone by the inverse multipliers modulo 2^32 and 2^64 |
| MurmurWords.FmixInjective | murmurhash3.c:33-53 | both finalizers are one-to-one |
| MurmurWords.Rotl32Back | murmurhash3.c:8-11 | a rotation by r is undone by one by 32 - r |
| MurmurWords.Rotl64Back31 | murmurhash3.c:13-16 | a rotation of 64 bits by 31 is undone by one by 33 |
| MurmurWords.Times32Back | murmurhash3.c:70-71 | multiplication by an odd constant is undone by its inverse |
| MurmurWords.Times64Back | murmurhash3.c:237-239 | multiplication modulo 2^64 by an odd constant is undone by its inverse |
| MurmurWords.OneDifference | murmurhash3.c:69-88 | a difference in one block or the tail survives all that follows |
| MurmurWords.FoldOneBlock | murmurhash3.c:69-72 | a difference in one block survives all later rounds |
| Base64.Encode | base64.c:18-55 | writes the text of RFC 4648, with line breaks if wanted, and a NUL, and returns its length |
| Base64.Decode | base64.c:100-155 | writes the bytes that the text stands for and returns their number, 0 for a stray '=' |
| Base64.StrayPad | base64.c:125-128 | a '=' in third place without another behind it makes the decoder return 0 |
| Base64.RoundTrip | base64.c:18-155 | decoding what the encoder wrote, with the same options, gives exactly the bytes |
| Base64.DecodedRest | base64.c:100-155 | from any group boundary and line position on, decoding what the encoder writes gives exactly the bytes left |
| Base64.RestIsEncoded | base64.c:28-51 | the encoder's groups and line breaks are the text of sections 4 and 5 of RFC 4648 in lines of 64 |
| Base64.RestIsPlain | base64.c:30-51 | without breaks the encoder writes the quanta of section 4 of RFC 4648, padding included |
| Base64.RestIsLines | base64.c:37-38 | with breaks a line feed stands after every 64 characters but not at the end |
| Base64.LinesAt | base64.c:37-38 | every 65th character of a text with breaks is a line feed and the others are the text in order |
| Base64.GroupIsQuantum | base64.c:30-33 | the four shifted and masked letters of three bytes are the base-64 digits of one 24-bit number |
| Base64.TestVectors | base64.c:28-51 | the test vectors of section 10 of RFC 4648 |
| Base64.ValueOfLetter | base64.c:4-93 | the reverse table undoes the alphabet, and no letter is '=', a line feed or NUL |
| Base64.LetterOfTable | base64.c:4-7 | the two alphabets are, character by character, table 1 of section 4 and table 2 of section 5 of RFC 4648 |
| Base64.EncodedLength | base64.c:28-54 | the text has 4 * ceil(n / 3) characters, and (4 * ceil(n / 3) - 1) / 64 line feeds when breaking and n > 0 |
| Base64.BufferHolds | base64.c:9-16 | text and NUL fit the announced buffer size for n < 2^63 |
| Base64.BufferExact | base64.c:9-16 | the announced size without overflow: four characters and some line feeds more than the text |
| TimeZone.Read | tzset.c:441-500 | the fields of tz_info_t are those the specification reads from the string, or the same error is returned |
| TimeZone.ReadName | tzset.c:287-322 | fails exactly when there is no plain or bracketed name, otherwise stores it cut to 17 characters and moves behind it |
| TimeZone.ReadOffset | tzset.c:324-360 | fails exactly when the specification of an offset does, otherwise stores sign and up to three fields, or for the other time the default of one hour later |
| TimeZone.ReadRule | tzset.c:362-439 | fails exactly when the specification of a rule does, otherwise stores day form and time of the change and moves behind it |
| TimeZone.Write | tzset.c:599-674 | the text of the information in the buffer, with its NUL, or the same error |
| TimeZone.WriteOffset | tzset.c:502-534 | sign and one to three fields are written behind what is there, and a NUL |
| TimeZone.WriteZone | tzset.c:536-555 | name, in brackets exactly when a character is not a letter, and offset are written, and a NUL |
| TimeZone.WriteRule | tzset.c:557-597 | day form, slash and time are written, and a NUL |
| TimeZone.ScanConsumes | tzset.c:344-345 | what is left after sscanf is an end of the text, and no field read leaves all of it |
| TzReading.DefaultTime | tzset.c:430-435 | a rule for any day without a time is for 2:00:00 |
| TzReading.NoTime | tzset.c:412-429 | a slash that no number follows leaves 2:00:00 |
| TzReading.DefaultRules | tzset.c:397-407 | without rules they are M3.2.0 and M11.1.0 at 2:00:00 |
| TzReading.OnlyZones | tzset.c:468-497 | a standard time and another name get an hour of difference and those rules, or the conflict is reported |
| TzReading.LaterByAnHour | tzset.c:352-357 | the default offset is one hour ahead, or that of standard time when that would be more than 14 hours |
| TzReading.NoSign | tzset.c:337-340 | an offset without sign means the same as with a plus |
| TzReading.OffsetRange | tzset.c:167-178 | an offset is accepted if and only if it is at most 12 hours west or 14 hours east |
| TzReading.JulianRange | tzset.c:373-388 | days are accepted if and only if they are from 0 to 365, or from 1 with a J |
| TzReading.MonthRange | tzset.c:389-396 | months, weeks and days are accepted if and only if they are in 1 to 12, 1 to 5 and 0 to 6 |
| TzReading.TimeRange | tzset.c:181-188 | a change after 23:59:59 is out of range |
| TzReading.NameCut | tzset.c:294-319 | a plain name of three letters or more is accepted and cut to 17 |
| TzReading.QuotedCut | tzset.c:300-319 | a name in brackets is accepted and cut to 17 characters |
| TzReading.ShortName | tzset.c:299-312 | fewer than three letters without brackets are no name |
| TzReading.Errors | tzset.c:441-500 | the first part of the text that is wrong decides the error |
| TzReading.DecimalPlain | tzset.c:521-531 | numbers are written without leading zeros, or with one digit zero in front up to 9 |
| TzReading.TimeForms | tzset.c:518-531 | whole hours stand alone without a leading zero; otherwise every field has two digits |
| TzReading.EasternRead | tzset.c:441-500 | EST5EDT is read as five and four hours west with the default rules |
| TzReading.EasternWritten | tzset.c:599-674 | and written as EST+5EDT+4,M3.2.0/2,M11.1.0/2 |
| TzRoundTrip.RoundTrip | tzset.c:441-674 | for every accepted string: printing and reading again gives the same information if and only if it is restorable (no rules, and standard time not zero or its sign positive; or rules, both names, standard time not zero, and the other time not zero or zero by default) |
| TzRoundTrip.ZeroWest | tzset.c:518-522 | ABC0 is accepted and not restorable: the sign of a zero offset is lost |
| TzRoundTrip.ReadSound | tzset.c:441-500 | what is read is in range and has passed the last check |
| TzRoundTrip.NameBack | tzset.c:287-322 | a written name is read back, plain or in brackets |
| TzRoundTrip.OffsetBack | tzset.c:324-360 | a written offset is read back unless it is zero |
| TzRoundTrip.RuleBack | tzset.c:362-439 | a written rule is read back, for J0, J1 and M |
| TzRoundTrip.AllBack | tzset.c:599-674 | with rules and a standard time that is not zero: restored if and only if restorable |
| TzRoundTrip.ZeroStandard | tzset.c:518-522 | with rules and a standard time of zero: never restored |
| TzRoundTrip.StandardOnly | tzset.c:453-466 | without rules: restored if and only if restorable |
| TzRoundTrip.ZeroLater | tzset.c:352-355 | the default of one hour later is the zero offset that was read exactly for a standard time of -1:00:00 and a negative sign |
| TzRoundTrip.SoundShort | tzset.c:543-583 | the local buffers of the writers are large enough for what was read |
| TzText.ScanDigits | tzset.c:344-345 | the decimal digits written for a number are read back as that number |
| RingQueue.CircularQueue.Enque | queue.c:60-78 | appends exactly min(count, free) blocks; what was accepted is what was removed followed by what is queued |
| RingQueue.CircularQueue.Deque | queue.c:80-101 | removes exactly min(count, used) blocks from the front, copies them if wanted, and the rest of the buffer stays; removed blocks left in the order of their acceptance |
| RingQueue.CircularQueue.Rear | queue.c:125-139 | copies the block queued last |
| RingQueue.CircularQueue.Clear | queue.c:141-149 | the queue becomes empty and a new history begins |
| RingQueue.CircularQueue.PlacesDiffer | queue.c:73 | queued blocks stand in different slots |
| RingQueue.Appended | queue.c:92-93 | the client's buffer holds the dequeued blocks one after the other |

## Left out

- CountedTree.Tree234.AddAt: an index above 3 in a tree that is a single leaf, when it is past the end, makes the code read outside the node, and is excluded.
- CountedTree.Tree234.AddPos: the same exclusion for a tree without a comparison function.
- What later calls do with a tree that has lost a subtree is not modelled.
- Elements of the counted tree are natural numbers with 0 as NULL, and comparison functions have no effects; element 0 is not inserted. Counts are unbounded, so a tree of more than 2^31 elements is not modelled.
- The arrays inside a node are fixed-length sequences; the writes to independent fields within one rotation, one erasure or one new memory range may stand in another order than in the source.
- Parent and colour of a red-black node, packed in one word there, are two fields; `container_of` is a map from links to their owners.
- Success of `malloc` is a parameter or given; freed nodes are nodes no longer in the structure.
- `rb_last`, `rb_replace_node`, the augmentation callbacks, `list_replace`, `list_move` and the like would only add easy members.
- Poison pointers of `list_del`: `list_del_init`, which unlinks in the same way, is modelled instead.
- Reading `/sys` and `/proc`, `format_size` and all printing; `MemoryMap.MemMap.ReleaseMap` returns what is reported there. Names are C strings without NUL, and `strcmp` is known by its sign.
- The heap has the 32-bit layout, with a pool of 32 bytes to 2^31 that does not wrap around and does not overlap the list head; clients leave the headers of blocks alone; mutual exclusion is left out.
- PortMemory.Heap.Free: an address that is no payload of a block, behind words that look like the header of a live block, is excluded.
- Rounding in `gaussian_elimination`, and overflow of its unsigned offsets.
- MurmurHash3 reads little-endian blocks; keys are shorter than 2^31 bytes; its debug output is left out.
- Base64.Decode: on text the encoder did not write, only as far as the source is readable and the buffer has room; rejection of bad characters is not claimed because the code does not do it.
- Base64.Encode: the buffer has room for text and NUL, which `Base64.BufferHolds` proves of the announced size below 2^63 bytes.
- TimeZone.Read: the check of rule dates against each other is the parameter `apart`; numbers beyond the range of `%hu` count modulo 2^16.
- TimeZone.Write: the buffer is large enough; the file output of tzset.c is left out.
- RingQueue.CircularQueue.constructor: sizes are positive and their product does not overflow; `circular_queue_front`, whose loop does not count down, and the null checks on the queue itself are left out.
- hash_table.c, whose probing loop and initialisation do not give a map, and memcache.c, which colours a node before linking it, are not part of this model.
- cpu_bind_table.c, linkedlist.c, stack.h, the list-backed queue, `plist`, `bits_count`, `great_common_divisor`, samples and scripts are not part of this model.
