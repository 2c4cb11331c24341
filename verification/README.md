# Guest memory, its index, and the guest's arithmetic, proved

A RISC-V guest runs here on hardware with far less memory than the guest
believes to have, and without a floating point unit that fits. This project
models the parts of the emulator that this rests on, and proves them.

**Paged guest memory.** A byte of guest RAM lives in a resident page, or in a
block of high memory, or in the page file. `Vmm` (the page table), `PageCache`
(the himem cache with write-back and block reuse) and `Storage` (himem blocks
and the page file) are classes whose methods have the branches of the C code.
Each of the first two finds its entries through a direct-mapped cache
(`DirectCache`) in front of an LRU list with an AVL index (`LruCache`,
`LinkedList`, `MemoryIndexer`). The main result is `VmmRun.Run`: for every
sequence of reads, writes and flushes the guest sees one flat array of bytes,
initially zero. `FlatMemory` relates pages to that array; `VmmRun.LastWriteWins`
and `VmmRun.ReadsLastWritten` say that the array is what one means by memory.

**The AVL index.** The nodes are heap objects with parent pointers and stored
balance factors. Ghost values say which tree the pointers spell out
(`AvlShape.Linked`), and an upward loop is followed by a zipper, the subtree at
the loop's node and the path above it. `AvlRotate` proves that the rotations,
which compute balance factors from relative heights, compute the true ones;
`AvlClimb` that the upward loops stop exactly where heights stop changing;
`AvlRemove`, `AvlTree` and `AvlBackward` the operations on whole trees.

**SoftFP.** Everything is stated for any word layout with an exponent of at
least 8 bits, a mantissa at least as long and an even word size; `SF32`, `SF64`
and `SF128` are instances. `FloatSpec.Rounded` is the reference: the word and the five flags of
an exact nonnegative real magnitude rounded once, defined without any
arithmetic of the implementation (nearest, above or below among the
representable numbers, IEEE 754-2008 sections 4.3 and 7). Magnitudes are counted
in multiples of the smallest positive number. A square root need not be
rational, so `FloatRoot.RoundedRoot` says the same with squares of integers, and
`FloatSqrt.SqrtOfReal` joins the two. `FloatRounding` shows that the reference
determines exactly one result; `FloatSticky` what a sticky bit preserves;
`FloatPack` that `round_pack_sf` meets the reference; the remaining files
that each operation hands it an exact number, or one with a sticky bit far
enough down. `FloatIeee` describes a correct result once more, from the bits of
the words and on the signed real axis, with infinities, thresholds and flags, and
proves the two descriptions equivalent; `FloatResults` and `FloatConvertResults`
say in those terms what each operation delivers for every operand. `mul_u` and `divrem_u` are the half-word and shift-subtract forms
that 32-bit targets use for doubles.

**Page walk and device tree.** `PageWalk` is `get_phys_addr` over the memory
map of `PhysMemory`, which the walk reads and marks. `PageTables` writes Sv32,
Sv39 and Sv48 out with their numbers, down to the bytes of memory, and proves the
walk equal to that. `FdtBuilder` is the
serialiser of the device tree, `FdtOutput` its output through the paged memory,
`FdtTree` and `FdtFormat` the reader that recovers the tree (sections 5.2 to 5.6
of the Devicetree Specification v0.2); `FdtImage` says byte by byte what must
stand in guest memory. The image has the code's order of blocks,
with the reserve map behind the structure block; chapter 5 of the specification
puts it in front.

Operations that change state are methods of classes; what they promise is tied
to ghost values (`Memory`, `pages`, `contents`, `tree`, `events`), and the
properties of those values are lemmas.

## Assumptions

- Allocation and file calls succeed, and so do himem calls: a page has between
  1 and 65535 bytes and there are between 1 and 65535 blocks, both being passed
  as 16-bit quantities. The himem back end is the emulated one.
- The page file starts as zeros. Accesses stay below the size of the memory, and
  the caller's buffer is none of the memory's own.
- A new entry's `dirty` flag, himem blocks, and the value words of a new direct
  cache are arbitrary. A direct cache has two cells or more.
- `on_flush` runs inside `lru_cache_remove` between its lookup and its
  unlinking; the callers here make the two halves and the callback in that
  order.
- The two low bits of an AVL node's parent word are the separate field `bf`, and
  a node and its container are one object. Only absent keys are added to an LRU cache, and
  a node to be inserted in a tree is not in it already.
- An operation returns the flags that it raises; the caller joins them to those
  it has.
- The registers of the hart have 32 or 64 bits. `satp` holds mode 0, 8 or 9 on a
  64-bit hart, which is what a write of the register keeps. RAM ranges start and end at multiples of 8.
- Property names and strings of the device tree contain no zero byte, and both
  blocks stay below 2^31 bytes.

Where comments and code disagree the model follows the code: the header of
`page_cache.c` speaks of a splay tree, but the index is the AVL tree; and
`avl_remove` notes that the successor has no right child, but relinks the one
that it may have.

## Model

| member | source | states |
|---|---|---|
| VmmRun.Run | lib/VMM/vmm.c:330-440 | Every run of reads, writes and flushes on a new memory, whatever the page size, the numbers of resident pages and himem blocks, the uninitialised bytes and stale cache words, delivers exactly what a zeroed flat byte array would |
| VmmRun.LastWriteWins | lib/VMM/vmm.c:341-403 | The flat array is the right reference: after any run each byte is the one last written to its address, or 0 |
| VmmRun.ReadsLastWritten | lib/VMM/vmm.c:341-403 | A read of a run delivers, byte for byte and in the order of the addresses, what was last written there before it |
| VmmRun.Step | lib/VMM/vmm.c:341-440 | One operation refines one step of the flat array: new memory and delivered bytes |
| VmmRun.Start | lib/VMM/vmm.c:233-299 | A new memory over the zeroed page file is a flat array of zeros |
| VmmRun.ZeroPages | lib/VMM/vmm.c:273-280 | The pages of a file of zeros are a flat memory of zeros |
| Vmm.Vmm.Read | lib/VMM/vmm.c:341-363 | The buffer receives exactly the bytes of memory at the address, the rest of it and memory stay; whatever is evicted on the way |
| Vmm.Vmm.Write | lib/VMM/vmm.c:379-403 | Memory changes in exactly the written bytes; whatever is evicted on the way |
| Vmm.Vmm.ReadInternal | lib/VMM/vmm.c:330-339 | A nonempty first chunk is delivered, within one page |
| Vmm.Vmm.WriteInternal | lib/VMM/vmm.c:365-377 | A nonempty first chunk is written, within one page |
| Vmm.Vmm.Flush | lib/VMM/vmm.c:432-440 | Afterwards every resident page is clean, the himem cache over the file equals the logical memory, and memory is unchanged, although write-backs may evict himem pages during the sweep |
| Vmm.Vmm.FlushNode | lib/lru_cache/lru_cache.c:59-72 | One turn of the sweep: the page is clean, clean pages stay clean, the list is unmoved, and the next node is the successor |
| Vmm.AllClean | lib/VMM/vmm.c:432-440 | When no resident page is dirty the layer below holds every page |
| Vmm.Vmm.ResidentBound | lib/VMM/vmm.c:66-83 | At most max(1, number of pages) pages are resident, and a direct-cache hit is always a resident page with its own number, never a freed or stale one |
| Vmm.Vmm.GetPage | lib/VMM/vmm.c:405-430 | The page of the address is resident afterwards and returned; no page contents change |
| Vmm.Vmm.LoadNew | lib/VMM/vmm.c:418-427 | The new entry is filled from the layer below and enters both caches under its number |
| Vmm.Vmm.GetTLB | lib/VMM/vmm.c:66-83 | Both caches together answer exactly as the table of resident pages |
| Vmm.Vmm.FindEmptyTLB | lib/VMM/vmm.c:180-212 | A fresh entry, after eviction if the table is full; no page contents change and there is room for the new page |
| Vmm.Vmm.EvictLast | lib/VMM/vmm.c:183-191 | The page at the tail of the list leaves the table without changing memory; only an empty table has none |
| Vmm.Vmm.FreeVmtable | lib/VMM/vmm.c:162-169 | The entry leaves both caches after its flush; exactly its page number is gone |
| Vmm.Vmm.OnPageFlush | lib/VMM/vmm.c:219-229 | A dirty page reaches the page cache and is clean; clean pages stay clean, and the other layers still hold |
| Vmm.WithoutClean | lib/VMM/vmm.c:162-169 | A page that is clean may leave the table: every page is still where the layers look for it |
| Vmm.WithLoaded | lib/VMM/vmm.c:418-427 | A page loaded from the layer below may enter the table, with its uninitialised dirty bit either way |
| Vmm.Vmm.BackingStoreWrite | lib/VMM/vmm.c:98-126 | The layer below then holds the page |
| Vmm.Vmm.BackingStoreRead | lib/VMM/vmm.c:128-160 | The buffer receives what the layer below holds, from himem or from the file |
| Vmm.Vmm.Create | lib/VMM/vmm.c:233-299 | All three layers start out holding the pages of the zeroed file |
| FlatMemory.FlatChunk | lib/VMM/vmm.c:330-339 | A chunk inside one page is the same slice of the flat array |
| FlatMemory.FlatUpdate | lib/VMM/vmm.c:365-377 | Writing a chunk inside one page is writing that slice of the flat array |
| PageCache.PageCache.Set | lib/page_cache/page_cache.c:88-130 | The map from page numbers to contents changes at this page only, by overwriting its block, by a new block, or by reusing the block of the evicted page after its contents reached the file |
| PageCache.PageCache.Get | lib/page_cache/page_cache.c:70-85 | A hit delivers the contents of the page; a miss leaves the buffer alone and means that the file holds them |
| PageCache.PageCache.BlocksBound | lib/page_cache/page_cache.c:102-130 | No two cached pages share a block, as many pages are cached as blocks were handed out, never more than the maximum, and a direct-cache hit is a cached page with its own number |
| PageCache.PageCache.ReuseBlock | lib/page_cache/page_cache.c:113-123 | The victim leaves both caches, its block belongs to no cached page, and the map of contents is unchanged |
| PageCache.PageCache.Evict | lib/page_cache/page_cache.c:115-119 | The least recently moved page leaves both caches; its item and block are free |
| PageCache.PageCache.OnPageFlush | lib/page_cache/page_cache.c:41-47 | The block of the page is then also at its place in the file |
| PageCache.PageCache.Install | lib/page_cache/page_cache.c:125-129 | The page enters the cache in a spare block and no other page changes |
| PageCache.PageCache.NewBlock | lib/page_cache/page_cache.c:105-112 | The next block was in no use |
| PageCache.PageCache.Lookup | lib/page_cache/page_cache.c:73-76 | Both caches together answer exactly as the index |
| PageCache.FaithfulFlushed | lib/VMM/vmm.c:85-96 | Writing a page to its place in the file keeps every page where it is looked for |
| PageCache.FaithfulWith | lib/page_cache/page_cache.c:125-129 | Writing a spare block changes one page only |
| PageCache.FaithfulWithout | lib/page_cache/page_cache.c:113-119 | A cached page that is in the file as well may leave the cache |
| PageCache.PageCache.constructor | lib/page_cache/page_cache.c:49-68 | An empty cache over a file stands for the pages of the file |
| Storage.Himem.Read | lib/HimemAllocator/himem_access/emulated_himem.c:34-53 | A block in range is delivered; otherwise 0 is returned and the buffer is unchanged |
| Storage.Himem.Write | lib/HimemAllocator/himem_access/emulated_himem.c:55-73 | A block in range is overwritten from its start; otherwise 0 is returned and no block changes |
| Storage.PageWritten | lib/VMM/vmm.c:85-96 | A page written at its offset is the only page of the file that changes |
| LruCache.Lru.Bijection | lib/lru_cache/lru_cache.c:43-134 | In every state each key is on exactly one list node and in the index once, and the count is the number of keys |
| LruCache.Lru.Get | lib/lru_cache/lru_cache.c:43-57 | The cached value or nothing; the order changes only by moving the key to the front, and nothing else changes |
| LruCache.Lru.Add | lib/lru_cache/lru_cache.c:124-134 | An absent key is added to the index and at the front of the list |
| LruCache.Lru.Find | lib/lru_cache/lru_cache.c:74-80 | The lookup of a removal finds the item of the key, if there is one |
| LruCache.Lru.Unlink | lib/lru_cache/lru_cache.c:82-89 | The item leaves list, index and count |
| LruCache.Lru.FlushItems | lib/lru_cache/lru_cache.c:93-112 | As many items as asked for, or all, leave from the tail; `on_flush` is called with exactly their keys and values, in that order |
| LruCache.Lru.FlushLast | lib/lru_cache/lru_cache.c:97-110 | The item at the tail leaves list, index and count |
| LruCache.Lru.GetLeastRecentlyUsed | lib/lru_cache/lru_cache.c:114-122 | The value of the key at the tail |
| LruCache.Lru.ListWalk | lib/lru_cache/lru_cache.c:59-72 | Walking the list from its head visits every cached value |
| LinkedList.List.RemoveInternal | lib/list/llist.c:55-104 | Takes out exactly the node; a node of no list, or NULL, leaves the list alone |
| LinkedList.List.LPush | lib/list/llist.c:193-215 | The node is first, wherever it was before, and the others keep their order |
| LinkedList.List.RPop | lib/list/llist.c:142-160 | Detaches the last node, if any |
| LinkedList.List.At | lib/list/llist.c:256-277 | The node at an index from the head, or from the tail if negative, or NULL |
| LinkedList.List.Remove | lib/list/llist.c:283-286 | Takes out exactly the node; NULL or a node of no list leaves the list alone |
| LinkedList.NotInWithout | lib/list/llist.c:55-104 | Taking out a node loses that node and no other, and shortens the list by one |
| DirectCache.Cache.constructor | lib/direct_cache/direct_cache.c:22-35 | A new cache of two cells or more hits nothing, whatever the uncleared memory holds |
| DirectCache.SentinelMisses | lib/direct_cache/direct_cache.c:31-33 | With two cells or more the sentinel key of a cell is a key of another cell |
| DirectCache.Cache.Get | lib/direct_cache/direct_cache.c:37-46 | A hit exactly for the keys that the lines serve |
| DirectCache.Cache.Set | lib/direct_cache/direct_cache.c:48-53 | The key hits; another key of its cell does no more; all others are unchanged |
| DirectCache.Cache.Remove | lib/direct_cache/direct_cache.c:55-60 | No key of the cell hits any more, whichever it held; all others are unchanged |
| DirectCache.CutSubmap | lib/direct_cache/direct_cache.c:55-60 | Removing from both caches keeps the direct cache a sub-map of the index |
| DirectCache.PutSubmap | lib/direct_cache/direct_cache.c:48-53 | So does adding to both |
| AvlTree.AvlTree.Insert | lib/avltree/avltree.c:445-549 | Adds exactly the new node at its place in the order, or returns the node that has its key and changes nothing; order, links, balance and every stored balance factor stay right |
| AvlTree.AvlTree.Remove | lib/avltree/avltree.c:551-679 | Takes out exactly this node; order, links, balance and every stored balance factor stay right |
| AvlClimb.ClimbInsert | lib/avltree/avltree.c:504-544 | The upward loop of insertion ends with every balance factor exact, in-order sequence and nodes unchanged |
| AvlClimb.InsertStepUp | lib/avltree/avltree.c:506-541 | The loop goes on (with the right sign) exactly when the subtree grew; it stops only at an unchanged height |
| AvlClimb.ClimbRemove | lib/avltree/avltree.c:638-676 | The upward loop of removal ends with every balance factor exact, in-order sequence and nodes unchanged |
| AvlClimb.RemoveStepUp | lib/avltree/avltree.c:639-673 | The loop goes on (with the right sign) exactly when the subtree got lower; it stops only at an unchanged height |
| AvlRemove.RemoveWithNext | lib/avltree/avltree.c:569-610 | A node with a right subtree is replaced by its successor, and the rest of the tree is kept |
| AvlRemove.DetachNext | lib/avltree/avltree.c:573-610 | The successor takes over children, parent and balance factor of the node |
| AvlRemove.RemoveNoNext | lib/avltree/avltree.c:612-628 | A node without right subtree is replaced by its left child |
| AvlRotate.RotateLL | lib/avltree/avltree.c:81-119 | Tree rotated; the balance factors and the height change computed from 0/1 child flags and relative heights are the true ones |
| AvlRotate.RotateRR | lib/avltree/avltree.c:121-160 | The mirror image |
| AvlRotate.RotateLR | lib/avltree/avltree.c:162-178 | Both rotations together leave the three stored factors exact |
| AvlRotate.RotateRL | lib/avltree/avltree.c:180-196 | The mirror image |
| AvlRotate.BalanceLL | lib/avltree/avltree.c:200-234 | The single rotation on the left leaves a balanced subtree |
| AvlRotate.BalanceLR | lib/avltree/avltree.c:200-234 | The double rotation on the left leaves a balanced subtree |
| AvlRotate.LeftHeavyShape | lib/avltree/avltree.c:200-234 | A left-leaning subtree is level again after rebalancing, lower by one unless the higher child was itself level |
| AvlRotate.RightHeavyShape | lib/avltree/avltree.c:200-234 | The mirror image |
| AvlRotate.RebalancedInorder | lib/avltree/avltree.c:200-234 | Rebalancing keeps the in-order sequence |
| AvlShape.HeightBound | lib/avltree/avltree.c:200-234 | A tree of height h with these balance factors has at least Fib(h + 2) - 1 nodes |
| AvlTree.AvlTree.Search | lib/avltree/avltree.c:336-358 | The node with the key, or NULL exactly when there is none |
| AvlTree.AvlTree.SearchGreater | lib/avltree/avltree.c:360-395 | The ceiling of any key, or NULL exactly when all keys are smaller |
| AvlBackward.SearchSmaller | lib/avltree/avltree.c:397-432 | The floor of any key, or NULL exactly when all keys are larger |
| AvlTree.AvlTree.FirstNode | lib/avltree/avltree.c:236-246 | The first node in key order |
| AvlTree.AvlTree.Next | lib/avltree/avltree.c:260-296 | The node right after this one in key order, or NULL after the last |
| AvlBackward.LastNode | lib/avltree/avltree.c:248-258 | The last node in key order |
| AvlBackward.Last | lib/avltree/avltree.c:248-258 | The node at the end of the right spine, with its position |
| AvlBackward.Prev | lib/avltree/avltree.c:298-334 | The node right before this one in key order, or NULL before the first |
| AvlBackward.Traverse | lib/avltree/avltree.c:236-296 | First and then next until there is none visits every node of the tree exactly once, in strictly increasing key order |
| AvlBackward.WalkVisitsAll | lib/avltree/avltree.c:236-296 | Any sequence of nodes that starts with the first, steps from each node to the one right after it and ends at the last is the in-order sequence |
| MemoryIndexer.Indexer.Set | lib/memory_indexer/memory_indexer.c:40-55 | The finite map is updated at the key |
| MemoryIndexer.Indexer.Search | lib/memory_indexer/memory_indexer.c:56-67 | The value of the key in the map, if any |
| MemoryIndexer.Indexer.Remove | lib/memory_indexer/memory_indexer.c:68-80 | The key is gone from the map, and nothing else |
| MemoryIndexer.Indexer.Free | lib/memory_indexer/memory_indexer.c:82-94 | Returns the number of keys and leaves the map empty |
| MemoryIndexer.SplicedMap | lib/memory_indexer/memory_indexer.c:40-80 | Adding or removing a node changes the map at its key only |
| FloatPack.RoundPack | lib/tinyemu/softfp_template.h:108-175 | The word and flags are those of the exact number rounded once, in all five modes, through gradual underflow and overflow; inexact and after-rounding underflow are exact |
| FloatPack.MantRule | lib/tinyemu/softfp_template.h:114-155 | Adding the mode's addend and shifting rounds up exactly when the discarded bits demand it |
| FloatPack.RoundStep | lib/tinyemu/softfp_template.h:148-155 | Rounding a mantissa with a sticky bit rounds the exact number, and it is exact just when no bits are lost |
| FloatPack.BarelyTiny | lib/tinyemu/softfp_template.h:138-139 | The test for tininess just below the normal range is the one of rounding with unbounded exponent |
| FloatPack.Normalize | lib/tinyemu/softfp_template.h:178-187 | Normalisation and rounding of a mantissa that is exact or has a sticky bit far enough down is correct |
| FloatPack.Delivered | lib/tinyemu/softfp_template.h:158-174 | Packing with carry into the exponent, or the overflow result, is the rounded number |
| FloatRounding.RoundsExactlyOne | lib/tinyemu/softfp_template.h:108-175 | The definition of correct rounding has exactly one result for every real magnitude and mode |
| FloatRounding.GridRounds | lib/tinyemu/softfp_template.h:108-175 | Rounding on the grid of the exponent is correct rounding, and conversely |
| FloatUnpack.RoundedUnique | lib/tinyemu/softfp_template.h:108-175 | Correct rounding determines the word and all flags |
| FloatIeee.RoundedIsCorrect | lib/tinyemu/softfp_template.h:108-175 | On the signed axis, by the bits of the words: RDN delivers the greatest number at most the exact result or -inf, RUP the least number at least it or +inf, RTZ the one of these nearer to zero, RNE and RMM the nearest with the tie to the even word or away from zero and infinity from the overflow threshold on; and each flag exactly when the standard says |
| FloatIeee.CorrectUnique | lib/tinyemu/softfp_template.h:108-175 | That description leaves no choice of word or flags |
| FloatIeee.RoundedIffCorrect | lib/tinyemu/softfp_template.h:108-175 | The description by magnitudes and the one on the signed axis agree |
| FloatIeee.OverflowIs | lib/tinyemu/softfp_template.h:158-173 | The rounded magnitude overflows exactly from the middle after the largest number on (nearest), past the largest number (away from zero), or from the next power of two on (toward zero) |
| FloatIeee.UnderflowIs | lib/tinyemu/softfp_template.h:133-147 | Tiny after rounding: the same three thresholds below the smallest normal number, at unbounded exponent |
| FloatIeee.DirectedUp | lib/tinyemu/softfp_template.h:123-130 | Away from zero: RDN on negative and RUP on positive results, up to the infinity of that sign |
| FloatIeee.DirectedDown | lib/tinyemu/softfp_template.h:120-130 | Toward zero, never beyond the largest number |
| FloatIeee.NearestIs | lib/tinyemu/softfp_template.h:115-156 | Nearest, with the two tie rules |
| FloatResults.DefaultNaNIs | lib/tinyemu/softfp_template.h:76 | The NaN that every operation delivers is a quiet NaN with a plus sign and the highest mantissa bit only |
| FloatResults.StandardWords | lib/tinyemu/softfp_template.h:76 | It is 0x7fc00000 and 0x7ff8000000000000 in the common formats; and the infinities |
| FloatResults.OneIs | lib/tinyemu/softfp_template.h:78-91 | The number 1 has the bias in its exponent field and no other bit |
| FloatUnpack.FiniteRounded | lib/tinyemu/softfp_template.h:78-91 | A number of the format rounds to itself without flags |
| FloatSpec.PackFields | lib/tinyemu/softfp_template.h:78-83 | The packed word has the given fields |
| FloatSpec.PackOfFields | lib/tinyemu/softfp_template.h:85-91 | Unpacking and packing gives back the word |
| FloatUnpack.SigNaNTest | lib/tinyemu/softfp_template.h:215-222 | The shifted comparison holds exactly for NaNs with the quiet bit clear |
| FloatUnpack.NormalizeSubnormal | lib/tinyemu/softfp_template.h:298-304 | The significand is brought to full width without changing the number |
| FloatSticky.ShiftsCompose | lib/tinyemu/softfp_template.h:93-105 | Sticky shifts compose: two shifts are one shift by the sum |
| FloatSticky.RshiftIsJam | lib/tinyemu/softfp_template.h:93-105 | The three branches are one shift with a sticky bit |
| FloatSticky.AgreesJam | lib/tinyemu/softfp_template.h:93-105 | After a sticky shift the word still compares with all grid points as the exact number does |
| FloatAdd.Add | lib/tinyemu/softfp_template.h:234-290 | For any two words: the exact sum rounded once with its sign and flags, or the NaN and infinity results |
| FloatAdd.Sub | lib/tinyemu/softfp_template.h:292-296 | The exact difference rounded once |
| FloatResults.AddDelivers | lib/tinyemu/softfp_template.h:234-290 | By fields and on the signed axis: the sum of the two reals rounded once with the standard's sign of zero; infinities; the default NaN, with invalid exactly for signalling NaNs and inf - inf |
| FloatResults.SubDelivers | lib/tinyemu/softfp_template.h:292-296 | The same for the difference |
| FloatAdd.AddMantissas | lib/tinyemu/softfp_template.h:276-289 | Three guard bits and a sticky bit suffice for the exact sum of aligned mantissas |
| FloatAdd.SumCommutes | lib/tinyemu/softfp_template.h:234-290 | Addition commutes bit for bit and flag for flag |
| FloatMul.MulU | lib/tinyemu/softfp_template.h:320-343 | Half-word multiplication: high * 2^n + low is the product |
| FloatMul.Mul | lib/tinyemu/softfp_template.h:349-399 | For any two words: the exact product rounded once, or the NaN and infinity results |
| FloatResults.MulDelivers | lib/tinyemu/softfp_template.h:349-399 | By fields and on the signed axis: the product of the two reals rounded once; infinities; the default NaN, with invalid exactly for signalling NaNs and inf * 0 |
| FloatMul.MulFinite | lib/tinyemu/softfp_template.h:380-398 | The exact product of nonzero numbers, subnormals included, rounded once |
| FloatDiv.DivremU | lib/tinyemu/softfp_template.h:567-585 | Shift and subtract: quotient and remainder of a double word |
| FloatDiv.Div | lib/tinyemu/softfp_template.h:589-653 | For any two words: the exact quotient rounded once, division by zero, NaN and infinity results |
| FloatResults.DivDelivers | lib/tinyemu/softfp_template.h:589-653 | By fields and on the signed axis: the quotient of the two reals rounded once; infinities and zeros; x / 0 raises division by zero and nothing else; inf / inf and 0 / 0 the default NaN with invalid |
| FloatDiv.DivFinite | lib/tinyemu/softfp_template.h:626-652 | The exact quotient of nonzero numbers, subnormals included, rounded once |
| FloatSqrt.SqrtremU | lib/tinyemu/softfp_template.h:689-716 | For a low word of 0: the floor square root, and whether it is inexact |
| FloatSqrt.NewtonLoop | lib/tinyemu/softfp_template.h:705-711 | The iteration from above terminates at the floor square root; the high word stays below the divisor |
| FloatSqrt.NewtonStep | lib/tinyemu/softfp_template.h:706-710 | A step never passes below the root, does not overflow a word, and when it does not go down the root is reached |
| FloatSqrt.Start | lib/tinyemu/softfp_template.h:694-704 | The starting power of two is not below the root and fits the divisor |
| FloatSqrt.Sqrt | lib/tinyemu/softfp_template.h:720-767 | For any word: the exact root rounded once in each mode, with exact flags, all said by comparing squares of integers; or the zero, NaN, negative and infinity results |
| FloatSqrt.SqrtOfReal | lib/tinyemu/softfp_template.h:720-767 | Whenever a real number is the exact root, the result is that number rounded once, as for the other operations |
| FloatResults.SqrtDelivers | lib/tinyemu/softfp_template.h:720-767 | By fields and on the real axis: the root rounded once; -0 and +inf themselves; every other negative word, -inf included, the default NaN with invalid |
| FloatRoot.RoundedLike | lib/tinyemu/softfp_template.h:720-767 | Rounding by comparing squares is correct rounding of every number that compares with quarters of the unit as the root does |
| FloatRoot.StandIn | lib/tinyemu/softfp_template.h:763-766 | On a grid of any fineness there is a number in the cell of the root, and it compares as the root does |
| FloatSqrt.CellOfRoot | lib/tinyemu/softfp_template.h:763-766 | The integer root of the widened mantissa is the cell of the exact root, and the inexact bit tells whether the root is its lower end |
| FloatFma.Fma | lib/tinyemu/softfp_template.h:402-552 | For any three words: the exact a * b + c rounded once in each mode, with its flags, or the NaN and infinity results |
| FloatResults.FmaDelivers | lib/tinyemu/softfp_template.h:402-552 | By fields and on the signed axis: a * b + c of the three reals rounded once with the standard's sign of zero; infinities; the default NaN, with invalid exactly for signalling NaNs, inf * 0 and inf - inf |
| FloatFma.FmaFinite | lib/tinyemu/softfp_template.h:440-552 | The exact a * b + c of finite numbers rounded once |
| FloatFma.RawProduct | lib/tinyemu/softfp_template.h:463-465 | The low 2 * RND_SIZE bits of the product are zero and it has its full width |
| FloatFma.AlignWide | lib/tinyemu/softfp_template.h:501-516 | The alignment shift is one sticky shift of the double word, or leaves a nonzero word below the other operand |
| FloatFma.ExactShift | lib/tinyemu/softfp_template.h:501-516 | Small alignment shifts lose nothing |
| FloatFma.OpenShift | lib/tinyemu/softfp_template.h:506-508 | Past one word, dropping the low word does not change how the sum rounds |
| FloatFma.AddWide | lib/tinyemu/softfp_template.h:501-552 | The sum or difference of aligned double words, normalised and rounded once, with the sign of an exact zero |
| FloatFma.AddWords | lib/tinyemu/softfp_template.h:520-522 | Addition with a carry between the words |
| FloatFma.SubWords | lib/tinyemu/softfp_template.h:525-527 | Subtraction with a borrow between the words |
| FloatFma.Normalize2 | lib/tinyemu/softfp_template.h:191-213 | A double-word mantissa, normalised to one word with a sticky bit, is rounded correctly |
| FloatConvert.Widen | lib/tinyemu/softfp_template.h:945-976 | Widening keeps the number exactly, with no flags except for signalling NaNs |
| FloatConvert.Narrow | lib/tinyemu/softfp_template.h:978-1010 | Narrowing rounds the number once, although a subnormal operand is not brought to full width |
| FloatConvertResults.WidenDelivers | lib/tinyemu/softfp_template.h:945-976 | The same real number and sign in the wider format; the default NaN, with invalid exactly for signalling NaNs |
| FloatConvertResults.NarrowDelivers | lib/tinyemu/softfp_template.h:978-1010 | The real number rounded once to the narrower format, on the signed axis |
| FloatConvert.TinyAlike | lib/tinyemu/softfp_template.h:996-1003 | Why that is harmless: all numbers below half the smallest one round alike |
| FloatConvert.WidenNarrow | lib/tinyemu/softfp_template.h:945-1010 | Widening and then narrowing gives back the word, in every mode, with no flags |
| FloatConvert.StandardFormats | lib/tinyemu/softfp_template.h:1014-1080 | The formats of 32, 64 and 128 bits are related as the conversions need |
| FloatInt.IntToFloat | lib/tinyemu/softfp_template_icvt.h:125-153 | The integer rounded once |
| FloatConvertResults.IntToFloatDelivers | lib/tinyemu/softfp_template_icvt.h:125-153 | The integer rounded once, on the signed axis |
| FloatInt.FloatToInt | lib/tinyemu/softfp_template_icvt.h:38-108 | The correctly rounded integer with exact inexact flag, or the saturated bound with the invalid flag |
| FloatConvertResults.FloatToIntDelivers | lib/tinyemu/softfp_template_icvt.h:38-108 | The result is always in the range of the integer type: the correctly rounded integer when that is in the range, inexact exactly when it differs; else the nearest bound with invalid only; NaN as too large |
| FloatConvertResults.RoundedIntegerUnique | lib/tinyemu/softfp_template_icvt.h:71-98 | The correctly rounded integer is unique in every mode |
| FloatConvertResults.IntegerRanges | lib/tinyemu/softfp_template_icvt.h:59-62 | The ranges of the signed and unsigned integers of 32 and 64 bits, as numbers |
| FloatInt.IntRoundTrip | lib/tinyemu/softfp_template_icvt.h:38-153 | An integer that fits the significand survives the trip through the format, in every pair of modes |
| FloatInt.Int32ThroughDouble | lib/tinyemu/softfp_template_icvt.h:38-153 | Every 32-bit integer, signed or unsigned, survives the trip through a double |
| PageWalk.GetPhysAddr | lib/tinyemu/riscv_cpu.c:216-322 | The walk returns exactly the translation of the memory it found and leaves exactly the marked entry behind |
| PageTables.TranslateIs | lib/tinyemu/riscv_cpu.c:216-322 | For Sv32, Sv39 and Sv48 with all numbers written out: the entry read at each level, the permission bits against privilege, SUM and MXR, and the physical address of a leaf at each level |
| PageTables.BytesAfter | lib/tinyemu/riscv_cpu.c:303-313 | Byte for byte, a translation sets the A bit of its leaf entry, and the D bit for a store, and changes nothing else |
| PageTables.WalkIsSearch | lib/tinyemu/riscv_cpu.c:272-321 | From any level on, the walk is the search of the tables written out |
| PageTables.WordIsBytes | lib/tinyemu/riscv_cpu.c:190-198 | A word of memory is the sum of its bytes times 256^i |
| PageTables.StoreIsBytes | lib/tinyemu/riscv_cpu.c:181-188 | A store puts byte i of the word, counted from the lowest, at its address plus i, and leaves all others |
| PageWalk.UpdateInvisible | lib/tinyemu/riscv_cpu.c:303-313 | The write-back of one translation changes no translation outcome of any address, access, privilege or root |
| PageWalk.RepeatWritesNothing | lib/tinyemu/riscv_cpu.c:303-313 | Repeating a translation writes nothing more |
| PageWalk.WriteImpliesRead | lib/tinyemu/riscv_cpu.c:284-316 | Where a store is allowed a load is, at the same address |
| PageWalk.SamePage | lib/tinyemu/riscv_cpu.c:284-316 | Addresses of one page go to one frame at their own offsets, or fault alike |
| PageWalk.WalkTables | lib/tinyemu/riscv_cpu.c:240-321 | The loop over the levels computes the recursive walk and its one write |
| PageWalk.TryLeaf | lib/tinyemu/riscv_cpu.c:285-316 | A leaf is used and marked exactly when it is permitted and a bit is missing |
| PageWalk.CheckLeaf | lib/tinyemu/riscv_cpu.c:286-302 | The sequence of checks allows exactly the permitted accesses |
| PageWalk.WalkAlike | lib/tinyemu/riscv_cpu.c:272-321 | Memories that differ only in accessed and dirty bits walk alike |
| PageWalk.AfterAlike | lib/tinyemu/riscv_cpu.c:303-313 | The write-back changes only accessed and dirty bits |
| PhysMemory.WordAfterStore | lib/tinyemu/riscv_cpu.c:181-198 | A store of an aligned word changes that word, and no other; outside RAM it changes nothing |
| PhysMemory.Memory.GetRange | lib/tinyemu/iomem.c:70-80 | The first range that covers the address |
| PhysMemory.Memory.ReadWord | lib/tinyemu/riscv_cpu.c:190-198 | The little-endian word, or 0 outside RAM |
| PhysMemory.Memory.WriteWord | lib/tinyemu/riscv_cpu.c:181-188 | The little-endian word is stored, or ignored outside RAM |
| FdtBuilder.Fdt.ReadsBack | lib/tinyemu/riscv_machine.c:386-507 | A reader of the two blocks recovers exactly the calls that built them |
| FdtBuilder.Fdt.TreeReadsBack | lib/tinyemu/riscv_machine.c:414-465 | When the calls were those of a tree, the reader recovers that tree |
| FdtTree.TreeRoundTrip | lib/tinyemu/riscv_machine.c:414-465 | Nested nodes and properties are recovered from their events, whatever follows |
| FdtFormat.StructureRoundTrip | lib/tinyemu/riscv_machine.c:386-465 | The token reader recovers exactly the encoded tokens |
| FdtBuilder.NameStable | lib/tinyemu/riscv_machine.c:434-456 | Later additions to the strings block change no name |
| FdtBuilder.Fdt.GetStringOffset | lib/tinyemu/riscv_machine.c:434-456 | The offset resolves to the name; the name is added only if it is new, and earlier strings stay |
| FdtBuilder.Fdt.FindString | lib/tinyemu/riscv_machine.c:438-443 | The scan finds the name exactly when it is interned |
| FdtBuilder.Fdt.AddString | lib/tinyemu/riscv_machine.c:444-455 | The name joins the table at its end, which grows if needed |
| FdtBuilder.Fdt.AllocLen | lib/tinyemu/riscv_machine.c:386-394 | Room for the words; the block so far is kept |
| FdtBuilder.Fdt.Put32 | lib/tinyemu/riscv_machine.c:396-400 | One big-endian word is appended |
| FdtBuilder.Fdt.PutData | lib/tinyemu/riscv_machine.c:403-412 | The data and its zero padding are appended |
| FdtBuilder.Fdt.BeginNode | lib/tinyemu/riscv_machine.c:414-419 | The history gains the opening of the node |
| FdtBuilder.Fdt.EndNode | lib/tinyemu/riscv_machine.c:428-432 | The history gains the end of the node |
| FdtBuilder.Fdt.Property | lib/tinyemu/riscv_machine.c:458-465 | The history gains the property with its name and data |
| FdtBuilder.Fdt.PropertyTabU32 | lib/tinyemu/riscv_machine.c:467-476 | The history gains the property with its big-endian words |
| FdtBuilder.Fdt.PropertyU32 | lib/tinyemu/riscv_machine.c:478-481 | The history gains the property with one word |
| FdtBuilder.Fdt.PropertyStr | lib/tinyemu/riscv_machine.c:503-507 | The history gains the property with the terminated string |
| FdtBuilder.Fdt.Finish | lib/tinyemu/riscv_machine.c:812-813 | The history gains the end of the structure block |
| FdtOutput.Output | lib/tinyemu/riscv_machine.c:547-650 | Guest memory holds the image of both blocks at the address, which is byte for byte the device tree of the calls; its size is returned, and no other byte of memory changes |
| FdtOutput.OutputReadsBack | lib/tinyemu/riscv_machine.c:547-650 | A reader of guest memory that starts from the header recovers the calls that built the tree |
| FdtOutput.OutputIsImage | lib/tinyemu/riscv_machine.c:547-650 | Guest memory, byte for byte: the magic, each header field at its offset, the blocks where the header says, and the tokens of the calls |
| FdtOutput.BlobIsImage | lib/tinyemu/riscv_machine.c:547-650 | The image of a builder's blocks is the device tree of its calls, with every number written out |
| FdtImage.TokensSpell | lib/tinyemu/riscv_machine.c:386-465 | The structure block spells the calls: tags 1, 2, 3 and 9, a property's length before its name offset, names and data with zero padding |
| FdtOutput.HeaderWords | lib/tinyemu/riscv_machine.c:344-355 | Each of the ten fields is the big-endian word at its offset |
| FdtImage.WordsAre | lib/tinyemu/riscv_machine.c:467-476 | A property of words holds them in order, each big-endian |
| FdtOutput.LayoutOrdered | lib/tinyemu/riscv_machine.c:581-640 | The blocks are disjoint, aligned, inside the image, and in the order that the code gives them: header, structure, reserve map, strings |
| FdtOutput.BlobBlocks | lib/tinyemu/riscv_machine.c:561-640 | The header leads to the structure block, the empty reserve map and the strings block |
| FdtOutput.HeaderRoundTrip | lib/tinyemu/riscv_machine.c:344-355 | The ten big-endian fields are recovered from the header bytes |
| FdtOutput.PutField | lib/tinyemu/riscv_machine.c:599-601 | Reading the header back, setting one field and writing it keeps the image so far |

## Left out

- `vmm_destroy` and closing the file: the loop's bound shrinks while its index grows, and nothing writes the himem cache back, so "the file holds all data after flush or close" is not a property of this code.
- The eviction order over a run: direct-cache hits do not touch the list and only every 100th lookup moves a node; the page at the tail leaves, and safety is proved for whatever order the list has.
- Releasing memory: a page that leaves a cache is no longer reachable from it, but `free` itself is not modelled.
- FloatSqrt.SqrtremU: only for a low word of 0, as its only caller passes; with a nonzero low word the start of the iteration is too small when the high word is a power of two.
- LruCache.Lru.Add: for absent keys, which is all that its callers add; with a present key the code links a second node of that key while the index keeps only the new item.
- PageWalk.GetPhysAddr: for registers of 32 and 64 bits; the 128-bit build, whose table addresses can exceed the 64 bits by which the memory map looks them up, is not modelled.
- FloatInt.FloatToInt: for integers of at most Bias + 1 bits, which all instances are.
- FloatConvert.StandardFormats: the conversions are proved for any pair of formats that are far enough apart, and this lemma gives the three pairs in use.
- Comparisons, minimum, maximum and classification of floats, and the high-word integer multiplications: no rounding or state.
- Double-word shortcuts of `mul_u`, `divrem_u` and `sqrtrem_u` on targets with a 128-bit integer.
- The superpage alignment check and the ban on supervisor execution of user pages, which the walk does not make; translation look-aside buffers; the instruction interpreter.
- `fdt_prop_tab_u64`, `fdt_prop_tab_u64_2`, `fdt_prop_tab_str`, `fdt_begin_node_num` and the board's own tree, which only call the operations that are modelled.
- `list_rpush`, `list_lpop`, `list_find`, iterators and destructors of the containers; `lru_cache_free`.
- Debug counters, logging and the real himem device.
- Disk, network, console and display devices.
