# Memory management of the Siegfried OS, modelled and proved in Dafny

The operating system allocates memory in five layers, and this project models each of them and
proves what it keeps:

- **dlmalloc**, the allocator of the C library (`hagen/src/malloc.c`), as built for 64-bit
  user space: chunks with border tags that tile a segment, the designated victim and top, 32 small
  bins and 32 bitwise tries with their bitmaps.
- **The page tables and the frame bitmap** (`src/page.c`): a radix table of three levels with 2 MiB
  leaves, the search for free virtual pages, cloning and releasing tables, frames.
- **The slot heap** (`src/pageobj_heap.c`) that page tables come from: blocks with a stack of free
  offsets.
- **The kernel heap** (`src/obj_heap.c`): majors that hold address-ordered minors, first fit with a
  best bet.
- **The byte routines** (`src/klib.c`) and the reading of ext4 extents (`src/extfs.c`).

Code that updates state in place is a class with methods; what the methods are proved against are
functions and predicates of the state, and lemmas about those.

## How the proofs are built

| layer | modules, from the bottom up |
|---|---|
| dlmalloc | `Words`, `Lists`, `BinMaps`, `BitTricks`, `Chunks`; `Trie` (the tree of a bin), `TrieLinks`, `TrieUnlink` (the tree as linked words), `Bins`, `SmallBins`, `TreeBins`, `TreeUnlinkBins` (all 64 bins); `Tags`, `TagOps` (the tiling); `Heap`, `HeapSteps`, `HeapOps` (both together: the whole-heap invariant `HeapInv`); `TrieSearch`, `Policy` (which chunk serves), `Victim` (how it is cut and what is left); `FreeSteps`, `ReallocSteps`, `Alignment`, `IallocSteps`, `IallocTotals`, `IallocLoop`, `BulkSteps`; `Malloc` (the class `MallocState`); `Safety`, `OneLayout` (the live chunks decide the rest); `RunState`, `Runs` (programs that use the heap) |
| page tables | `Entries`, `Tables` (the flat map `MapAt`), `Contents` (the entries behind it), `Paging`, `FreeRange`, `Cloning`, `Isolation`, `Release`, `FrameAlloc` |
| others | `SlotHeap`, `SlotRuns`; `ObjHeap`, `ObjMajors`, `BestBet`, `ObjAlloc`, `ObjRuns`; `MemCpy`, `StrTok`; `Extents`, `ExtentCodec` |

dlmalloc's invariant `HeapInv` is what the code's own debugging checks assert: chunks tile the
segment; the pinuse bit and prev_foot of a chunk tell the truth about the one before it; no two free
chunks are neighbours; every free chunk is the designated victim or in the one bin for its size; each
treebin is a trie in which the sizes below a node agree on all bits consumed so far, equal sizes form
one ring with one tree member, and parent links are exact; a map bit is set exactly if its bin is in
use.  Operations are described by `Moved(h, h', gone, new)`: these chunks are no longer live, those
are, and every other live chunk keeps its size and every word of its payload.  That determines more than
it says: under `HeapInv` the live chunks decide where all other chunks and top are
(`OneLayout.LayoutByLive`).  What it leaves open is stated beside it: `Carved` for what malloc takes and
leaves (the size cut, the designated victim, the lists and tries), `VictimGrows` for freeing, `Refits` for
resizing in place.

The configuration is the one the repository builds: 8-byte sizes, 16-byte alignment, 8 bytes of
overhead, minimal chunk 32, no footers, no locks.  Sizes of chunks are below 2^40, because the tree
index narrows the shifted size to 32 bits; requests may be any 64-bit number.  Sizes in the kernel
heap stay below 2^32, the width of its fields.

## Where the code does less than it seems to

- `get_paddr` computes in `int`: addresses are read back exactly if and only if they are below 2^43
  (`Entries.PaddrBack`, `Entries.FrameBack`).
- `ialloc` adds up its sizes without a check: the elements lie in the chunk it splits if and only if
  the total is below 2^64 (`IallocTotals.InsideIff`, `Malloc.MallocState.Ialloc`); two elements of
  2^63 bytes are the counterexample (`Malloc.MallocState.WrappedIalloc`).
- `internal_memalign` does not end for an alignment above 2^63 that is not a power of two
  (`Alignment.DoublingEndsIff`).
- `str_tok` delivers the words of a string if and only if no word is empty
  (`StrTok.TokensAreWords`); a leading delimiter swallows a word (`StrTok.LeadingDelimiter`).
- `page_virt_find_addr_user` is right on every table if and only if at most 512 pages are asked for
  (`FreeRange.RightIff`); for more, its skips pass over mapped pages (`FreeRange.MissesIt`).
- `page_find_and_alloc` does not check the result of that search: without a free run it maps its frames
  from page 0 on, and what these pages mapped is lost (`FrameAlloc.MappingLost`).  Allocating and
  freeing restores the map if and only if the pages found were free, which for up to 512 pages means
  that there was a free run (`FrameAlloc.AllocAndFree`).
- The slot heap never runs out while the page allocator answers if three of its slots fit into 4 MiB
  (`SlotRuns.ServeAll`), and otherwise loses a slot with every allocation (`SlotRuns.RunsOut`).
- The lookup of an address tests no present bit in the leaf: after `page_free_found` it still gives the
  frame that has been given back (`FrameAlloc.FreeThenLookup`).

## Model

| member | source | states |
|---|---|---|
| `BinMaps.InBinIff` | hagen/src/malloc.c:1938-2014 | a size from 256 up to 2^40 gets tree index i exactly if it is at least the least size of bin i and, but for bin 31, below that of bin i+1 |
| `BinMaps.TreeIndexMonotone` | hagen/src/malloc.c:1940-1951 | the tree index never decreases with the size |
| `BinMaps.NextMarked` | hagen/src/malloc.c:2033-2047 | least bit, left bits and bit index together lead to the next marked bin above i, or to none exactly if there is none |
| `BitTricks.FastTreeIndexIsTreeIndex` | hagen/src/malloc.c:1983-2000 | the branch-free tree index equals the one by leading zeros for every size below 2^40 |
| `BitTricks.FastBit2IdxIsBit2Idx` | hagen/src/malloc.c:2070-2079 | the branch-free bit index equals the count of trailing zeros for each of the 32 single bits |
| `BitTricks.LeastBitByNegation` | hagen/src/malloc.c:2032 | x & -x on a 32-bit word is the least set bit of x |
| `BitTricks.LeftBitsMask` | hagen/src/malloc.c:2035 | the mask of left bits of bin i, with its wrapping negation, keeps exactly the marks above i |
| `TrieSearch.UnsignedCompare` | hagen/src/malloc.c:3546-3562 | the unsigned comparison of remainders takes a chunk exactly if it is large enough and smaller than the best so far; a wrapped remainder never wins, also against the initial -nb |
| `TrieSearch.AgainstDv` | hagen/src/malloc.c:3587 | a found chunk beats the designated victim in wrapping arithmetic exactly if the victim is too small or larger than the chunk |
| `TrieSearch.BestInOwnBin` | hagen/src/malloc.c:3544-3570 | a best fit of nb's own treebin is a best fit of all treebins |
| `TrieSearch.BestInNextBin` | hagen/src/malloc.c:3571-3578 | when nothing in nb's own bin fits, the least size of the next marked bin is the best fit of all treebins |
| `TrieSearch.FirstLoopDone` | hagen/src/malloc.c:3548-3569 | when the walk along nb's bits falls off the trie, the deepest untaken right subtree holds every size that could still be a better fit |
| `TrieSearch.FirstBin` | hagen/src/malloc.c:3613-3619 | for a small request the first marked treebin fits entirely and all bins below it are empty |
| `TrieSearch.LeastOfAll` | hagen/src/malloc.c:3620-3626 | the least size found on the leftmost path of that bin is the least of all treebins |
| `SmallBins.InsertSmall` | hagen/src/malloc.c:2671-2686 | the link writes of the insertion keep all 64 bins well formed, put the chunk at the front of the bin of its size and touch only links and that bin's header |
| `SmallBins.UnlinkSmall` | hagen/src/malloc.c:2689-2709 | unlinking keeps all bins well formed and removes exactly that chunk, also when only the map bit is cleared and stale header links stay; the run-time link checks always pass |
| `TreeBins.InsertLarge` | hagen/src/malloc.c:2750-2799 | inserting a chunk of at least 256 bytes keeps every treebin a bitwise trie with exact parent links and rings, marks the bin, and adds exactly that chunk |
| `TreeUnlinkBins.UnlinkMember` | hagen/src/malloc.c:2818-2887 | unlinking a tree member, with its ring predecessor or its rightmost leaf descendant as replacement, keeps every treebin well formed and removes exactly that chunk; the map bit is cleared exactly if the bin becomes empty |
| `TreeUnlinkBins.UnlinkChained` | hagen/src/malloc.c:2818-2887 | unlinking a chunk that is only chained to a tree member changes the ring and nothing else in the tree |
| `Malloc.MallocState.InsertSmallChunk` | hagen/src/malloc.c:2671-2686 | the in-place insertion puts the chunk at the head of its bin's list and keeps all bins |
| `Malloc.MallocState.UnlinkSmallChunk` | hagen/src/malloc.c:2689-2709 | the list of the chunk's size loses exactly this chunk and every other list stays |
| `Malloc.MallocState.UnlinkFirstSmallChunk` | hagen/src/malloc.c:2712-2732 | the chunk that leaves is the first of its list, had the bin's size, and the rest of the list stays in order |
| `Malloc.MallocState.InsertLargeChunk` | hagen/src/malloc.c:2750-2799 | the insertion loop down the trie ends with the chunk, and only it, added: as a new leaf on its path, or right behind the tree member of its size |
| `Malloc.MallocState.UnlinkLargeChunk` | hagen/src/malloc.c:2818-2887 | the three steps (pass over in the ring or walk to the rightmost leaf, relink the parent, adopt the children) remove exactly this chunk: the ring predecessor or the rightmost leaf takes its place, and nothing else in the tries moves |
| `Malloc.MallocState.FindBestFit` | hagen/src/malloc.c:3536-3584 | the search returns the tree member of the smallest size of at least nb bytes among all chunks of all treebins, or null exactly if none fits |
| `Malloc.MallocState.FindLeast` | hagen/src/malloc.c:3607-3626 | the search for a small request returns the tree member of the smallest size in all treebins |
| `Malloc.MallocState.TmallocLarge` | hagen/src/malloc.c:3536-3604 | null exactly if no binned chunk fits or the designated victim fits at least as tightly; otherwise a tightest binned chunk is cut to nb bytes, what is left of it is binned, or handed out whole if less than a chunk would be left; victim and top stay and every other live block is kept |
| `Malloc.MallocState.TmallocSmall` | hagen/src/malloc.c:3607-3642 | always serves, from the tree member of the least size in all treebins; with a chunk to spare it is cut to nb bytes, the rest, at p + nb with the old size less nb, is the designated victim and the old victim is the first of its bin; otherwise victim and bins stay but for the chunk taken |
| `Malloc.MallocState.SplitSmallBin` | hagen/src/malloc.c:3698-3722 | the first chunk of the bin is cut in the same way: the rest is the designated victim, the old victim the first of its bin, or the chunk is handed out whole and the victim stays |
| `Malloc.MallocState.UseDv` | hagen/src/malloc.c:3740-3757 | the designated victim serves: what is left, at dv + nb with nb bytes less, is the victim, and if that is less than a chunk all of it is handed out and there is no victim |
| `Victim.GrowsThen` | hagen/src/malloc.c:3465-3531 | that the victim is still there, perhaps as part of a larger chunk, unless top has taken it in, carries over from one freeing to the next |
| `OneLayout.LayoutByLive` | hagen/src/malloc.c:2488-2553 | two heaps with the same live chunks, of the same sizes, in the same segment have the same chunks and the same top: what is free between two live chunks is always one chunk, and what is free behind the last is top |
| `OneLayout.VictimByLive` | hagen/src/malloc.c:3465-3531 | two ways of freeing that leave the same live chunks leave the same designated victim |
| `OneLayout.FreedAlike` | hagen/src/malloc.c:4199-4239 | freeing the same chunks in any order, one by one or in bulk, leaves the same chunks, the same top and the same designated victim |
| `OneLayout.ServedAlike` | hagen/src/malloc.c:3646-3780 | what malloc, on the chunk it takes, has to leave is unique: chunks, top, victim, lists and tries |
| `Malloc.MallocState.ReplaceDv` | hagen/src/malloc.c:2736-2745 | the old victim is binned, the new one cached, and no live block changes |
| `Policy.NextSmallBin` | hagen/src/malloc.c:3692-3698 | shift, mask, least bit and bit index find the first small bin in use that fits |
| `Policy.FromSmallBin` | hagen/src/malloc.c:3655-3714 | a chunk of that bin is a tightest fit of everything binned |
| `Malloc.MallocState.MallocSmall` | hagen/src/malloc.c:3652-3722 | a small request takes the first chunk of the smallest non-empty bin that fits, exact or one step larger without remainder, or else the least tree chunk; what is left of it, if a chunk, becomes the designated victim; null, with nothing changed, only if the designated victim or top must serve |
| `Malloc.MallocState.SysAlloc` | hagen/src/malloc.c:3139-3345 | the segment grows at its end by whole granules and the request is cut from top, or nothing changes; exactly when the system grants the request |
| `Malloc.MallocState.Malloc` | hagen/src/malloc.c:3646-3780 | the whole-heap invariant is kept; the result was not live before and comes from the tightest binned chunk (the first of its list, or the tree member), else the designated victim, else top, else new memory; it is cut to nb bytes, or whole if less than a chunk would be left; a split victim leaves the rest as victim, a small request that splits a binned chunk makes the rest the victim, and otherwise the victim stays; all other live blocks keep size and contents; null exactly if none of these can serve |
| `FreeSteps.AfterRun` | hagen/src/malloc.c:3829-3877 | behind a run of free space there is top, a chunk in use, the designated victim or a binned chunk, and nothing else |
| `FreeSteps.FreeWithNext` | hagen/src/malloc.c:3853-3864 | joining the run with the binned chunk behind it leaves one free chunk with exact border tags |
| `Malloc.MallocState.DisposeChunk` | hagen/src/malloc.c:3465-3531 | after joining with its free neighbours the chunk is gone from the live set, no two free chunks are adjacent, every other live block is untouched, and the designated victim is there still, as it was or as part of the joined chunk, unless top has taken it in |
| `Malloc.MallocState.Free` | hagen/src/malloc.c:3784-3891 | the same for a user pointer; a null pointer changes nothing |
| `Malloc.MallocState.TryReallocChunk` | hagen/src/malloc.c:3913-3990 | shrinks or grows in place (into top, the designated victim or a binned neighbour) exactly if the chunk and a free neighbour together are large enough, keeping the prefix of the payload and all other blocks; the size is nb, or all there is if less than a chunk would be left, and what is left of the victim is the victim; otherwise nothing changes |
| `Malloc.MallocState.Realloc` | hagen/src/malloc.c:4287-4330 | the block is resized in place, as above, or malloc serves a new one, every word that both sizes hold is copied and the old one is freed; null, with nothing changed, exactly if the size is too large or neither the place nor malloc can serve, and for a null pointer exactly if malloc refuses; the pointer is the same whenever the block fits in place |
| `Alignment.AlignmentIsLeast` | hagen/src/malloc.c:3994-4000 | the alignment used is the least power of two not below the one asked for and 32 |
| `Alignment.DoublingEndsIff` | hagen/src/malloc.c:3996-4000 | the doubling loop over 64-bit words reaches the alignment if and only if that is at most 2^63 |
| `Alignment.AlignedSpot` | hagen/src/malloc.c:4014-4031 | the aligned place leaves a leader of at least MIN_CHUNK_SIZE and nb bytes behind it |
| `Malloc.MallocState.Memalign` | hagen/src/malloc.c:3992-4064 | malloc serves a chunk larger by the alignment and a minimal chunk, the block is put at its aligned place in it, and leader and trailer are freed; the result is aligned, newly live and holds at least nb bytes; all other blocks are kept; null exactly if the size is too large or malloc refuses |
| `IallocTotals.InsideIff` | hagen/src/malloc.c:4107-4163 | in the chunk that serves what the code asks for, every element lies with its whole size if and only if the unbounded total, with the array, is below 2^64 |
| `Malloc.ZeroTotalRefused` | hagen/src/malloc.c:4119-4133 | a total that wraps to 0 in words, with or without the array, makes malloc refuse, always |
| `IallocTotals.TotalWraps` | hagen/src/malloc.c:4107-4133 | the total that the code forms in words is the unbounded total modulo 2^64, as long as the bytes of its own array are a word |
| `Malloc.MallocState.WrappedIalloc` | hagen/src/malloc.c:4107-4163 | two elements of 2^63 bytes: malloc takes a chunk of less than 64 bytes from the heap as it was, stores its address, and the elements do not lie in it |
| `Malloc.MallocState.Ialloc` | hagen/src/malloc.c:4073-4190 | for all sizes: fails exactly if malloc refuses the wrapped total, with nothing changed; otherwise malloc has taken a chunk for it from the heap as it was, the pointers stored are the elements' addresses as words, and they lie in the chunk exactly if the total is below 2^64; then the heap invariant holds, the chunk is split into n adjacent live chunks of their sizes (the last of at least it) and the array's chunk of at least 8n+8 bytes with the n pointers, which together reach to the chunk's end and are exactly what is newly live |
| `IallocLoop.HalfwayCut` | hagen/src/malloc.c:4152-4158 | splitting off one element keeps the heap as it is with the rest already cut, and the pointers stored so far |
| `Malloc.MallocState.BulkFree` | hagen/src/malloc.c:4199-4239 | with its merging of neighbouring pointers the loop frees exactly the chunks of the array, keeps the heap invariant, all other blocks and, but for joining, the designated victim, and clears the array |
| `BulkSteps.FirstJoined` | hagen/src/malloc.c:4213-4222 | replacing the next pointer by the current one keeps the pointers without repetition and removes one chunk from their set |
| `Malloc.MallocState.constructor` | hagen/src/malloc.c:2998-3020 | a fresh state satisfies the whole-heap invariant with nothing live |
| `Malloc.MallocState.TraverseAndCheck` | hagen/src/malloc.c:2525-2553 | the checker visits every chunk once, in address order, its assertions hold, and the sizes it adds up are the whole segment |
| `Malloc.MallocState.StoreWord` | hagen/src/malloc.c:1338-1345 | a store by the owner of a block changes that word alone and, as far as the next chunk's foot word, disturbs neither the invariant nor another block |
| `Safety.ChunksTile` | hagen/src/malloc.c:2333-2361 | every address between base and top lies in exactly one chunk |
| `Safety.PayloadsDisjoint` | hagen/src/malloc.c:2333-2361 | no byte belongs to the payloads of two live blocks, and payloads, with the foot word that the next chunk lends, lie inside the segment |
| `Safety.FreeChunkPlace` | hagen/src/malloc.c:2488-2553 | a free chunk is the designated victim or in the one bin for its size, never both and in no other bin |
| `Malloc.FreeNeighbours` | hagen/src/malloc.c:2365-2388 | the chunk after a free chunk is in use |
| `RunState.DeliveredPointers` | hagen/src/malloc.c:4148-4163 | the pointers that ialloc stores are all different, none belonged to a live block, and each one's chunk is live and large enough |
| `Runs.Execute` | hagen/src/malloc.c:3646-4330 | each of malloc, memalign, free, realloc, a store, bulk free and ialloc into an array of the caller's does to the heap what it does to the blocks on paper; it succeeds exactly if the heap can serve it, and then acts as its operation does (what malloc takes and how it cuts it, what is moved, which victim is left, how far the segment grows); if not, heap and pointers stay as they were |
| `Runs.Run` | hagen/src/malloc.c:3646-4330 | over any sequence of these commands from a fresh state every heap on the way satisfies the invariant, holds exactly the blocks of the replay so far, with their contents, and is what its command made of the one before; a command fails exactly if that heap cannot serve it |
| `Entries.PaddrBack` | src/page.c:50-72 | a table address written by set_paddr is read back exactly if and only if it is below 2^43 |
| `Entries.FrameBack` | src/page.c:68-92 | a frame written by set_paddr_pde is read back by get_paddr, which uses another layout, if and only if it is below 2^43 |
| `Paging.Pager.AllocPage` | src/pageobj_heap.c:62-128 | the pool hands out a zeroed page of its own and no other page is written |
| `Paging.Pager.MarkFrame` | src/page.c:590-593 | marks exactly the one frame used |
| `Paging.Pager.UnmarkFrame` | src/page.c:937-966 | marks exactly the one frame unused |
| `Paging.Pager.AllocTab` | src/page.c:372-461 | the three-level table refines a flat map: exactly the page of the address maps to the frame afterwards, all other pages map as before; its leaf is present, writable and a 2 MiB page, open to users exactly if it is not the kernel's; the two entries above it are present and writable, and open to users and executable for a user's page; every other entry of the table is as it was; at most two tables are taken from the pool, and the frame is marked used |
| `Paging.PathRights` | src/page.c:402-458 | over all three levels the page of the address can be written, is open to users exactly if it is not the kernel's, can be executed if it is a user's, and no 1 GiB entry arises |
| `Contents.RootWritten` | src/page.c:402-458 | writing a root entry that keeps its table, or an absent one with a zeroed table, changes no other entry of the three levels |
| `Contents.MidWritten` | src/page.c:402-458 | the same one level below |
| `Contents.LeafEntryWritten` | src/page.c:402-458 | writing a leaf changes no other entry of the three levels |
| `Paging.Pager.LookupTab` | src/page.c:185-222 | where there is a table of leaves the result is the address in the leaf, present or not, plus the offset in the page: for a mapped page that is its frame; 0 without such a table |
| `Paging.SamePage` | src/page.c:185-222 | two addresses have the same three indices exactly if they lie in one 2 MiB page, modulo 2^48 |
| `Paging.OtherTable` | src/page.c:414-461 | a table that shares no page with what is written maps as before |
| `Tables.WriteLeaf` | src/page.c:446-458 | writing one leaf changes the flat map at one place |
| `Tables.HangTop` | src/page.c:419-431 | a new zeroed table in the root changes no mapping and keeps all tables unshared |
| `Tables.HangMiddle` | src/page.c:433-444 | the same one level below |
| `FreeRange.EarlyReturn` | src/page.c:714-740 | for up to 512 pages leaving the loop at a missing table agrees with a linear scan: the rest of the run lies inside the missing region |
| `FreeRange.SearchRight` | src/page.c:696-770 | the search as a function, with its skips, gives the lowest start of a free run for up to 512 pages, or 0xDEAD exactly if there is none |
| `FreeRange.MissesIt` | src/page.c:720-740 | for every count above 512 there is a table, with one page mapped, on which the search returns a run that holds the mapped page |
| `FreeRange.RightIff` | src/page.c:696-770 | the search is right on every well-formed table without 1 GiB entries if and only if at most 512 pages are asked for |
| `FreeRange.VirtFindAddr` | src/page.c:696-770 | the loops compute this search for every count, so for up to 512 pages the lowest page that starts a run of free pages, indices taken modulo 2^48, or 0xDEAD exactly if there is none |
| `Cloning.CloneTab` | src/page.c:99-137 | the copy has the same flat map as the source and each of its leaves is the source's with the user bit cleared; the entries above keep presence and rights, the source is unchanged in all its entries, they share no page, and the pages taken from the pool are exactly the copy's |
| `Cloning.CloneRights` | src/page.c:99-137 | no page of the copy is open to users, and each can be written as in the source and executed if it could be there |
| `Cloning.CopyLeaves` | src/page.c:119-124 | 512 leaves are copied with the user bit cleared and nothing else is written |
| `Isolation.AllocApart` | src/page.c:414-461 | mapping a page in one of two tables that share no page leaves all lookups in the other, and keeps them apart |
| `Isolation.CloneThenMap` | src/page.c:99-137 | after a clone and any number of page_alloc_tab calls on either table, each maps as the source did but for the calls on itself |
| `Release.LeafNotFreed` | src/page.c:139-165 | a page about to be released has not been released before |
| `Release.FreeTab` | src/page.c:139-165 | every page of the table returns to the pool, each once, and no other |
| `Release.CloneAndFree` | src/page.c:99-165 | cloning and releasing the clone leaves the pool with the pages it had, and the root, and the source's map as it was |
| `FrameAlloc.IsUsed` | src/page.c:560-588 | true exactly if the frame is marked or, with a list of available ranges, lies outside all of them |
| `FrameAlloc.FindAndAlloc` | src/page.c:881-935 | pgs strictly increasing frames, the first that are unused and available, are mapped at the result of the search, each page with the rights it is asked for, and marked; no other entry, no other frame and no other memory changes, and the pages taken from the pool are exactly those added to the table; without a free run the result is 0xDEAD, which is not checked |
| `FrameAlloc.MappingLost` | src/page.c:892-905 | without a free run a page between 0 and pgs was mapped and now has one of the new frames |
| `FrameAlloc.FreeFound` | src/page.c:937-966 | exactly the pages of the run are unmapped, by the present bit of their leaves alone, and exactly their frames unmarked, also for an address inside its first page |
| `FrameAlloc.MadeLonger` | src/page.c:892-935 | page after page: the one just mapped has its rights, those before it keep theirs and every page outside the run keeps its entry |
| `FrameAlloc.FreeThenLookup` | src/page.c:185-222 | after freeing a run its pages are absent from the flat map, and a lookup still gives the frames they had |
| `FrameAlloc.AllocAndFree` | src/page.c:881-966 | page_free_found after page_find_and_alloc restores the set of used frames, and the flat map if and only if the pages found were free; for up to 512 pages, if and only if there is a free run |
| `SlotHeap.MakeBlock` | src/pageobj_heap.c:19-58 | the stack of a new block lists every slot that header and stack leave, once each |
| `SlotHeap.SlotsClear` | src/pageobj_heap.c:19-58 | header and stack end before the first slot in use and no slot passes the block's end, for every block size and slot size that leave room |
| `SlotHeap.SlotsDisjoint` | src/pageobj_heap.c:79-160 | slots of all blocks, free or handed out, are the same or do not overlap |
| `SlotHeap.MetaClear` | src/pageobj_heap.c:79-160 | no slot overlaps the header or stack of any block |
| `SlotHeap.SlotHeap.Alloc` | src/pageobj_heap.c:62-128 | the first block with room gives its topmost offset, which was not live and is apart from all live slots and all metadata; a block of which fewer than three were left is marked and a new 4 MiB block put in front, once; the first size bytes are zero and no other byte changes |
| `SlotHeap.SlotHeap.Free` | src/pageobj_heap.c:130-194 | exactly this slot ceases to be live and goes on top of the stack of its own block; nothing else changes, and the free slots and live slots of each block remain a partition |
| `SlotHeap.SlotHeap.AddBlock` | src/pageobj_heap.c:19-58 | exactly a new, full block joins in front and no live slot changes |
| `SlotRuns.UsableIff` | src/pageobj_heap.c:19-58 | a 4 MiB block has a slot to give exactly if three slots fit into it |
| `SlotRuns.ServedReady` | src/pageobj_heap.c:62-128 | a heap whose first block has at least one, two or three slots left and may be extended still has after an allocation, if a new block has as many |
| `SlotRuns.ReturnedReady` | src/pageobj_heap.c:130-194 | and after a freeing |
| `SlotRuns.RunsOut` | src/pageobj_heap.c:88-101 | if three slots do not fit into 4 MiB, every allocation leaves one free slot less, new blocks or not |
| `SlotRuns.ServeAll` | src/pageobj_heap.c:62-194 | any sequence of allocations and freeings is served in full as long as the page allocator answers: the program then holds what replaying it on paper gives, the first block has a slot left, and what was live before still is |
| `SlotRuns.Setup` | src/pageobj_heap.c:8-17 | the set-up with 4096-byte slots in 8 MiB has 2043 slots to give and is ready for such runs |
| `MemCpy.SourceAhead` | src/klib.c:29-148 | what is still to be copied has not been overwritten |
| `MemCpy.Shifted` | src/klib.c:75-125 | two aligned loads, shifted and combined, hold the four source bytes that straddle them |
| `MemCpy.Ram.LoadSource` | src/klib.c:75-125 | every shifted load is aligned and lies inside the source buffer |
| `MemCpy.Ram.ShiftedCopy` | src/klib.c:74-126 | for each of the three misalignments the loop of shifted words equals the byte-by-byte copy so far |
| `MemCpy.Ram.MemCpy` | src/klib.c:29-148 | for every count and all alignments of two disjoint buffers the memory afterwards is that of the byte-by-byte copy, with nothing written outside dest |
| `MemCpy.Ram.MemSet` | src/klib.c:161-195 | exactly the n bytes are set, for every n, although the stores at both ends overlap |
| `StrTok.Cursor.Next` | src/klib.c:292-331 | each call delivers the next token, moves forward, and resets the cursor when there is none |
| `StrTok.Cursor.Collect` | src/extfs.c:426-471 | the tokens collected call by call are the words between delimiters if and only if no delimiter begins the string or follows another |
| `StrTok.TokensAreWords` | src/klib.c:292-331 | the same as a statement about all strings |
| `StrTok.LeadingDelimiter` | src/klib.c:311-319 | for /a/b the tokens are / and b: the word a is lost |
| `ObjHeap.AlignFacts` | src/obj_heap.c:25-49 | the pointer is 128-aligned, its tag fits in a byte and UNALIGN leads back, and the requested bytes end before the 144 extra bytes do |
| `ObjHeap.GapBound` | src/obj_heap.c:373-402 | a major whose unused total is below the need has no gap that large: skipping it is sound |
| `ObjMajors.PlacedOk` | src/obj_heap.c:406-603 | placing a minor in a gap keeps minors ordered, disjoint and inside their major, with usage and in-use totals exact |
| `ObjMajors.DroppedOk` | src/obj_heap.c:760-790 | taking a minor out, and its major when it was the last, keeps the same and the totals exact |
| `ObjMajors.PayloadsApart` | src/obj_heap.c:25-49 | no byte of a live pointer's request lies in another minor, with its header, and live pointers differ |
| `ObjMajors.PayloadOffHeaders` | src/obj_heap.c:25-49 | nor in its own minor's header, nor in the header of any major |
| `ObjAlloc.UnalignFinds` | src/obj_heap.c:41-49 | the tag below any live pointer leads to its minor |
| `ObjAlloc.ObjHeapState.AllocateNewPage` | src/obj_heap.c:220-270 | the new major has room for the request, is empty, joins the end of the list and is counted |
| `ObjAlloc.ObjHeapState.FindGap` | src/obj_heap.c:479-595 | the walk finds the first inner or end gap that is large enough, and none exactly if all are too small |
| `ObjAlloc.ObjHeapState.ServeFrom` | src/obj_heap.c:406-595 | a major serves the request from its first sufficient gap, in front, between or at the end, and fails only without such a gap |
| `ObjAlloc.ObjHeapState.Alloc` | src/obj_heap.c:274-656 | terminates through best-bet start and restart; the search begins at the best bet if that promises more than is needed and some major from it on has room, otherwise at the root, and the first major with room serves from its first sufficient gap; pages are requested only when no gap of any major is large enough; the best bet is the one that the walk leaves; totals, tags and all other minors are kept |
| `ObjAlloc.BetServes` | src/obj_heap.c:366-395 | the same from the place of the best bet in the list: which major serves, with and without the hint |
| `BestBet.GlancesMost` | src/obj_heap.c:384-393 | after a walk the best bet is the first of the majors passed with the most unused bytes, or still the old one if none had more |
| `BestBet.WalkEnds` | src/obj_heap.c:396-430 | a walk that comes to the end has passed every major, none with room, and leaves that bet, whether new pages follow or not |
| `ObjAlloc.ObjHeapState.Free` | src/obj_heap.c:674-808 | exactly this minor is gone, an emptied major is returned with its pages and is no longer the best bet, a major that stays becomes the best bet exactly if there is one and it now has more unused bytes, compared as 32-bit ints; totals are exact |
| `ObjAlloc.ObjHeapState.AllocAndFree` | src/obj_heap.c:274-808 | allocating and freeing again restores the list of majors, both totals, and returns the pages that were requested |
| `ObjAlloc.ObjHeapState.Store` | src/obj_heap.c:25-49 | a caller's store inside its request disturbs neither tags nor the invariant |
| `ObjAlloc.ObjHeapState.CopyBytes` | src/obj_heap.c:143-166 | word and byte loops copy exactly the bytes between two disjoint blocks |
| `ObjAlloc.ObjHeapState.Realloc` | src/obj_heap.c:831-934 | frees for size 0, allocates for null, stays in place when the old request covers the new one, and otherwise moves; fails exactly if it must move or allocate and neither a gap nor the page allocator serves; the bytes both requests cover are kept, and every other block's bytes too |
| `ObjRuns.Execute` | src/obj_heap.c:274-934 | each of alloc, free, realloc and a store does to the heap what it does to the blocks on paper; it succeeds exactly if the heap or the page allocator can serve it, and then places, drops, shrinks or moves minors and sets the best bet as its operation does; if not, nothing but the best bet changes, which a search in vain may have moved |
| `ObjRuns.Run` | src/obj_heap.c:274-934 | over any sequence of commands and answers of the page allocator every heap on the way is well formed, holds exactly the blocks of the replay so far, with their bytes, and is what its command made of the one before; a command fails exactly if that heap cannot serve it |
| `Extents.ExtentList.NewPair` | src/extfs.c:231-256 | the walk along the links ends at the last one; the new extent hangs behind it, all links before stay, and following them from the root lists the extents in order |
| `Extents.ExtentList.Parse` | src/extfs.c:258-328 | terminates on depth and appends exactly the leaf extents of the tree in order, passing over a child with a wrong magic number; what the entries are is `ExtentCodec.TreeBack` |
| `ExtentCodec.HeadBack` | include/extfs.h:229-237 | the twelve bytes of a node head, little-endian in the order of the fields, give back every field |
| `ExtentCodec.LeafBack` | include/extfs.h:247-254 | the twelve bytes of a leaf entry give back its extent, for every block count below 2^16, disk block below 2^48 and file block below 2^32 |
| `ExtentCodec.IndexBack` | include/extfs.h:239-245 | the twelve bytes of an index entry give back its key and its 48-bit child block |
| `ExtentCodec.TreeBack` | src/extfs.c:258-328 | a tree of extents written to disk, node by node, is read back: parsing its root lists exactly its extents in order, and nothing of a child that is no node |
| `ExtentCodec.TreeWritten` | src/extfs.c:258-328 | and every node that parsing can read is such an encoding, of the tree that it stands for |
| `ExtentCodec.TreeUnique` | src/extfs.c:258-328 | whichever tree was encoded, its extents are those of the tree that is read back |
| `ExtentCodec.ReadStored` | src/extfs.c:821-866 | end to end: reading a file whose extents were written as such a tree fills the buffer with exactly its bytes |
| `Extents.DescentFinds` | src/extfs.c:258-328 | for an indexed tree whose extents are sorted and gap-free, a search down the tree for any mapped block ends at the listed extent that holds it |
| `Extents.FileByteUnique` | src/extfs.c:847-862 | a byte of the file has one value |
| `Extents.OneCover` | src/extfs.c:847-862 | no byte of the file is covered by two extents of a sorted list |
| `Extents.ByteByDescent` | src/extfs.c:821-866 | the byte that a read delivers is the one that a search down the tree leads to |
| `Extents.ReadInodeContents` | src/extfs.c:821-866 | the buffer receives exactly the file's bytes from off on, min(count, mapped end - off) of them, none at or past the end, and is not written beyond |

## Left out

- Malloc.MallocState.SysAlloc: extends the one segment in place when the system's next region is adjacent, and fails otherwise; segments elsewhere, `prepend_alloc`, `add_segment`, trimming and mmapped chunks are not part of the model.
- Malloc.MallocState.Ialloc: for a total of 2^64 and more, what the writes outside the chunk do to the heap is not stated; when a common size wraps to 0 the code reads sizes that it was not given, which are arbitrary here. The clearing of the elements is not modelled.
- Runs.Execute: `ialloc` is a command with an array of the caller's and a total below 2^64.
- Malloc.MallocState.Memalign: for alignments up to 2^63; see above.
- The run-time checks of dlmalloc: `unlink_large_chunk` and the other operations check links at run time; under the invariant the checks pass, so the corruption actions are unreachable and not modelled.
- FreeRange.VirtFindAddr: the table has no 1 GiB entries. `page_virt_find_addr` is the same search only while the kernel's table is the current one: otherwise it tests one table and descends through the other, which is not modelled. Counts and addresses are unbounded here; in 64-bit words the loops' counters can wrap beyond 2^42 pages, 2^15 times the address space.
- FrameAlloc.FindAndAlloc: requires that enough usable frames exist below 2^43 and that the pool holds enough pages; otherwise the code does not return. For `page_find_and_alloc_user`, which is given its address, the mapping loop is the same and is not modelled on its own.
- Paging.Pager.LookupTab: where the region has no table the code halts.
- Paging.Pager.AllocPage: the pool does not call back into the page allocator, which the code could do while a table is being extended.
- Paging.Pager.AllocTab: `page_alloc_dev`, which sets bit 12 of a leaf as a flag, is not modelled.
- SlotHeap.SlotHeap.Alloc: requires a block with a free slot; otherwise the code halts. The test for a block of 0x2000000 bytes when freeing never applies.
- ObjAlloc.ObjHeapState.Free: pointers given to free and realloc are live, so the magic numbers are right and the reports of overruns unreachable; where the page allocator has nothing the code halts, and the model returns 0. Records of majors and minors are values in sequences instead of linked words.
- Extents.ReadInodeContents: for files with extents; block pointers, sparse files and uninitialised extents are not modelled, nor is the freeing of the list; a list node is an object, not a block of the kernel heap.
- MemCpy.Ram.MemCpy: for buffers that do not overlap, which is what its callers pass.
- calloc, the mspace variants, `dlmalloc_inspect_all`, statistics, locks and footers of the C library's allocator.
- CR3 and TLB handling, the memory test at boot and other hardware effects.
- Path lookup, directories, hashed directories and symbolic links of the file system.
- Tasks, drivers, interrupts, the system calls, the shell, and the string and character routines of the C library.
