# Verified models of FlightOS components

FlightOS is an operating system for space missions. This project models its stateful and arithmetic core in
Dafny and proves what that core is for. Code that changes things in place is modelled by classes, arrays and
loops; each such method is proved against a specification, and the lemmas beside it say what the specification
means.

| modules | component |
|---|---|
| `Words`, `BitStream` | 32-bit words, bit streams, and the bit writers |
| `AriModel`, `ArithmeticCoder`, `ChunkEncoder`, `Vbwl`, `Compressor`, `PreStage` | the lossless compressor and its reversible pre-stage |
| `BuddyTree`, `Buddy` | the buddy allocator |
| `KmemChain`, `Kmem` | the kernel heap |
| `SpwRing`, `SpwSession`, `SpwDriver`, `SpwRuns` | SpaceWire descriptor rings shared with the DMA core, and auto-drop sessions |
| `ProcTask`, `ProcQueue`, `ProcTrace`, `ProcNet` | the data processing network, and the log of its operations |
| `EdfArith`, `Edf`, `RoundRobin` | admission to the EDF queue, and the round-robin pick |
| `Memmove`, `Median` | overlap-safe copying and the median |
| `KernelList` | kernel lists, and walks over lists that change meanwhile |

## What is proved

- **Compressor.** FlightOS has only the encoder, so a decoder is written here as functions. It recovers the
  source from the output of `fmari_compress` for every input, rebuilding each adapted model from what it has
  decoded, and reading the escaped values back from the block-coded spill; the pre-stage is a bijection and is
  undone too. The coder's interval invariant holds after every symbol, and whatever bits follow the flushed
  code, decoding yields the same symbols. What makes up the format is stated apart from both sides: which symbols each
  model counts, how a symbol's frequency scales the interval, and where chunks, spill and blocks stand.
- **Buddy allocator.** Bitmap, order table and free lists describe a binary tree of blocks. Blocks tile the pool,
  no two free buddies of one order exist, an unused pool is one block with all lists empty, and freeing what was
  just allocated restores the tree. The pool is the largest power of two that the memory holds, and every block handed
  out is the smallest that serves, aligned to its size and inside that memory.
- **Kernel heap.** Chain, free list and byte count agree after every call, neighbours are merged, `kmalloc`
  refuses exactly when it must, `kfree` removes exactly one chunk, and `krealloc` carries the contents over and says
  exactly when it returns a pointer to a free chunk.
  From the initial header to the break there is no gap exactly as long as releases are honoured, and blocks hold
  what was asked for exactly up to the size at which the 32-bit length wraps.
- **SpaceWire rings.** For every interleaving of driver calls, core steps and auto-drop sessions, as long as the ring
  is in order, the packets received are those consumed followed by those pending, in order. Only interrupts of a
  session can put it out of order, and which sessions can is known when they start: a session stays in order in every
  continuation exactly if it drops at most one packet at a time or every interrupt flag left over from earlier sessions
  stands where the session's own flag will be moved onto it before it can fire (`SpwSession.SafeExactly`). A session
  with its own flag alone, ahead of the core, never lets the table run full. Transmission keeps the order of acceptance.
  The core's side follows chapter 16 of the GR712RC user manual, which the driver cites (`kernel/grspw2.c:30`).
- **Processing network.** For arbitrary operation results no task and no step is lost; without rescheduling,
  repeated processing ends with all nodes drained. While operations succeed, the operations called for a task are
  exactly its pending steps, in order, up to the first that no node has.
- **Schedulers.** The hyperperiod is the least common multiple of the periods; the slot test passes exactly when
  head and tail sums fit, passes every queue whose unrounded sums fit, bounds the demand, and is independent of the
  queue order exactly when ties agree; the round-robin walk picks the first task with time left, a task woken up goes
  first, and a slice is used up after exactly as many picks as its length takes.
- **memmove, median.** memmove meets its textbook contract for every overlap and alignment. The median is right for
  every array for which the method ends. It ends if the median plus any element fits into 32 bits
  (`Median.FitsFinishes`); if minimum plus maximum does not fit, it ends exactly for a single element
  (`Median.OverflowAtOnce`); in between an overflow can go on for ever or be recovered from (`Median.OverflowLater`,
  `Median.OverflowRecovers`).

Where the code differs from its comments, or from what its callers would expect, the model follows the code:

- `fmari_encode_chunk` rounds a chunk up to whole words but does not write the padding
  (`init/demo_net.c:1304-1307`, which says it fills up with zeros); the decoder accepts any padding.
- A free block at the base of a buddy pool is never linked (`lib/mm.c:397-399`), so `mm_alloc` can return NULL
  although that block is large enough (`Buddy.BaseBlockIsSkipped`, `Buddy.SkippedRun`).
- When a block is merged into its lower buddy its order stays in the table (`lib/mm.c:346-349`), so a second free
  of it is not refused (`Buddy.StaleOrderRun`).
- `krealloc` with size 0 returns NULL and frees nothing (`kernel/kmem.c:572-573` says it is equal to `kfree`).
- `kernel_sbrk` compares the increment, converted to an unsigned number, with the free bytes
  (`arch/sparc/kernel/mmu.c:204`) and so refuses to shrink the break, while `kmem_release_unused` ignores the
  answer (`kernel/kmem.c:294`). Chunks then no longer reach up to the break (`Kmem.GapRun`); `Kmem.Heap.Kfree` and
  `Kmem.Heap.ReleaseUnused` state exactly when they do.
- `kmalloc` computes its length in 32 bits (`kernel/kmem.c:431`). Beyond 2^32 - 40 bytes it wraps, and the block is
  too small or overruns the break (`Kmem.WrapRun`); `krealloc` then copies over what follows (`Kmem.WildRun`).
- `krealloc` does not look at the magic number, so the pointer to a freed block is accepted. If that block is the one
  found, it is freed again and returned all the same (`Kmem.DanglingRun`).
- `grspw2_auto_drop_disable` leaves the interrupt flag of the session set. In a later session that flag can raise an
  interrupt which recycles a descriptor the core has not completed (`SpwRuns.StaleRun`).
- A session that starts when the flagged descriptor is completed already drops nothing, and packets are lost once the
  table is full (`SpwRuns.FullRun`), although the session is there to prevent that (`kernel/grspw2.c:1979-1982`).
- `grspw2_get_pkt` subtracts the stripped header from shorter packets too (`kernel/grspw2.c:2124`), and copies nearly
  the whole address space then (`SpwRuns.ShortPacketRun`).
- The median's sum of minimum and maximum can overflow after the first turn, although it fits at first
  (`kernel/testmodule.c:690`), and the loop then never ends (`Median.OverflowLater`).
- `pn_process_inputs` destroys a task without steps, although one that runs out of steps inside the network goes
  to the output node (`lib/data_proc_net.c:465-479`, `lib/data_proc_net.c:160-163`, `ProcNet.StepLessIsStray`).
- With two queued tasks of the longest period the verdict of the EDF slot test can depend on the order of the wake
  list (`Edf.TieMatters`, `Edf.OrderMattersExactly`).

## Model

| member | source | states |
|---|---|---|
| BitStream.PutBit32 | init/demo_net.c:596-620 | exactly the addressed bit of the stream takes the value, all others stay |
| BitStream.PutNBits32 | init/demo_net.c:634-729 | the field appears most significant bit first across word boundaries, all other bits stay; 0 and more than 32 bits write nothing |
| BitStream.GroupIsSingleWrites | init/demo_net.c:634-729 | writing a field equals writing its bits one by one, most significant first |
| AriModel.MakeCumulative | init/demo_net.c:819-830 | the array holds the running totals, the result is the grand total; nothing is written for no rows |
| AriModel.UpdateModel | init/demo_net.c:842-867 | frequencies are the smoothing value plus the counts of the counted part, which may be empty, with the running totals beside them |
| AriModel.AdaptedIsValid | init/demo_net.c:842-867 | a model adapted from any full chunk has 257 frequencies of at least 1 that total 8192 |
| AriModel.StartTableIsValid | init/demo_net.c:877-1146 | so has the start table |
| AriModel.TotalsOfFrequencies | init/demo_net.c:819-830 | such frequencies give a strictly increasing table from 0 to exactly 8192 |
| ArithmeticCoder.NarrowPartitions | init/demo_net.c:1186-1193 | the subintervals of the symbols partition the current interval: every code lies in exactly one |
| ArithmeticCoder.NarrowScales | init/demo_net.c:1186-1193 | both ends of a symbol's interval are its running totals scaled from 8192 to the width, rounded down |
| ArithmeticCoder.Zoom | init/demo_net.c:1195-1225 | one turn of the renormalisation doubles the width of the interval |
| ArithmeticCoder.Settle | init/demo_net.c:1195-1225 | renormalisation ends with low below and high above the middle and a width above 0x4000 |
| ArithmeticCoder.CodeInRange | init/demo_net.c:1180-1249 | whatever follows the flushed code, its leading 16 bits lie in the interval |
| ArithmeticCoder.EmitInRange | init/demo_net.c:1195-1225 | the same between two renormalisation steps |
| ArithmeticCoder.DecodeUndoesCode | init/demo_net.c:1180-1249 | decoding the code of any symbols under any valid model, followed by any bits, gives the symbols back |
| ArithmeticCoder.CodeLength | init/demo_net.c:1180-1249 | a symbol takes at most 16 bits, the flush takes 2 |
| ChunkEncoder.Encoder.constructor | init/demo_net.c:1156-1166 | the coder variables start at zero |
| ChunkEncoder.Encoder.PutUnderflow | init/demo_net.c:1201-1206 | the pending bits follow the leading one, inverted, and none stay pending |
| ChunkEncoder.Encoder.Renormalise | init/demo_net.c:1195-1225 | one turn zooms the interval and writes, or notes as pending, what the specified code demands |
| ChunkEncoder.Encoder.EncodeSym8k | init/demo_net.c:1180-1228 | the new interval is the symbol's subinterval renormalised; bits written and pending are a prefix of the specified code |
| ChunkEncoder.Encoder.FlushEncoder | init/demo_net.c:1238-1249 | with the flush the stream holds exactly the specified code |
| ChunkEncoder.EncodeChunk | init/demo_net.c:1264-1311 | a well-formed chunk with its size in front appears, what stood before it stays, large values are appended to the spill |
| ChunkEncoder.ChunkWordsLeast | init/demo_net.c:1297-1311 | a chunk takes one word for its size and as few as hold its code |
| ChunkEncoder.ChunkDecodes | init/demo_net.c:1264-1311 | any words that form a chunk decode to min(symbol, 256) of the whole chunk, whatever follows |
| Vbwl.BitsUsed | init/demo_net.c:1314-1324 | the number of significant bits |
| Vbwl.BlockWidthFits | init/demo_net.c:1350-1362 | the width of a block holds each of its words |
| Vbwl.BlockWidthLeast | init/demo_net.c:1350-1362 | it is the least such width from 9 on |
| Vbwl.BlockLayout | init/demo_net.c:1364-1374 | a block is its width less 9, then each word in that width, read most significant bit first |
| Vbwl.BlocksLayout | init/demo_net.c:1338-1380 | block j codes the words from j times the block size on and stands right behind the one before |
| Vbwl.BlocksRoundTrip | init/demo_net.c:1338-1380 | reading the blocks recovers every word for every block size from 1 on |
| Vbwl.BlocksLength | init/demo_net.c:1338-1380 | no word takes more than 32 bits and a width of its own |
| Vbwl.VbwlMidsize | init/demo_net.c:1338-1380 | the output is the word count and the blocks, the size is rounded up to words, what stood before stays |
| Compressor.InitAriTable | init/demo_net.c:877-1146 | the start table, for every mode |
| Compressor.StartModel | init/demo_net.c:1413-1416 | the first model is strictly increasing up to 8192 |
| Compressor.NextModel | init/demo_net.c:1424-1431 | every model derived from a full chunk is strictly increasing up to 8192 |
| Compressor.NextModelCounts | init/demo_net.c:842-867 | in it every symbol has 1 plus the number of its occurrences in the chunk behind the first 257 words |
| Compressor.StreamLayout | init/demo_net.c:1418-1435 | the stream is one coded chunk for each 8192 words, the first under the start model, each other one under the model of the chunk before |
| Compressor.ContainerLayout | init/demo_net.c:1397-1453 | number of words, size of the stream, stream, number of large words, and these less 256 in blocks of 4 with 5-bit widths |
| Compressor.CompressChunks | init/demo_net.c:1418-1435 | the stream is a sequence of chunks, each under the model adapted from its predecessor, and the spill is complete |
| Compressor.BiasSpill | init/demo_net.c:1440-1441 | 256 is subtracted from every escaped value |
| Compressor.StreamDecodes | init/demo_net.c:1418-1435 | a decoder that rebuilds each model from the chunk before recovers all symbols |
| Compressor.SpliceRestores | init/demo_net.c:1283-1295 | putting the spill back in the place of the escape symbols gives the source |
| Compressor.DecompressUndoesCompress | init/demo_net.c:1397-1453 | any output of the specified form decompresses to the source |
| Compressor.Compress | init/demo_net.c:1397-1453 | the output has that form and the announced size, its header words and the number of spilled values are right, and it decompresses to the source |
| Compressor.BufferSuffices | init/demo_net.c:1397-1453 | a destination whose size depends on the number of words alone suffices for every source |
| PreStage.Delta32 | init/demo_net.c:549-559 | in place, each word but the first becomes the wrapped difference to its predecessor; the rest of the buffer stays |
| PreStage.DeltaAddsUp | init/demo_net.c:549-559 | each difference added to the word before gives the word in 32 bits, the first word stays |
| PreStage.Map2Pos32 | init/demo_net.c:570-583 | in place, negative numbers become odd and the others even |
| PreStage.UndeltaOfDelta | init/demo_net.c:549-559 | differences can be summed up again |
| PreStage.DeltaOfUndelta | init/demo_net.c:549-559 | every array is the difference of exactly one |
| PreStage.FoldInterleaves | init/demo_net.c:570-583 | the mapping interleaves negative and other 32-bit numbers without loss |
| PreStage.DecorrelationIsBijective | init/demo_net.c:1543-1544 | the whole pre-stage is a bijection on 32-bit arrays |
| PreStage.CompressData | init/demo_net.c:1543-1591 | pre-stage and compressor together are undone by the decoders |
| BuddyTree.UnusedIsOneBlock | lib/mm.c:530-554 | a coalesced pool with nothing in use is a single free block |
| BuddyTree.Buddies | lib/mm.c:291-304 | the address with the order bit flipped is the other half of the same parent |
| BuddyTree.BlocksTile | lib/mm.c:267-278 | live and free blocks tile the pool, each aligned to its own size |
| BuddyTree.FreeAtShape | lib/mm.c:374-400 | freeing keeps the pool coalesced and takes exactly the block's size off the blocks in use |
| BuddyTree.FreeAtLive | lib/mm.c:585-622 | after a free all other live blocks are as before, and only they |
| BuddyTree.AllocLive | lib/mm.c:478-573 | after an allocation the live blocks are those before and the new one |
| BuddyTree.MergeStep | lib/mm.c:315-363 | merging with a free buddy and freeing the result is freeing the first block |
| BuddyTree.MergeStop | lib/mm.c:374-400 | with no free buddy only the block itself changes |
| BuddyTree.FreeUndoesAlloc | lib/mm.c:478-622 | allocating out of any free block and freeing again restores the pool |
| Buddy.Pool.SplitBlk | lib/mm.c:267-278 | the upper half becomes free, marked and linked at the head of its list; tables and tree agree |
| Buddy.Pool.MergeBlk | lib/mm.c:315-363 | merges exactly if the buddy is a free block of the same order |
| Buddy.Pool.LinkFree | lib/mm.c:394-399 | the block is marked free, and linked at the head of its list unless it is the base |
| Buddy.Pool.UpMergeBlks | lib/mm.c:374-400 | the tree is the one with the block freed and coalesced |
| Buddy.Pool.FindList | lib/mm.c:532-537 | the first non-empty list from the wanted order on |
| Buddy.Pool.Grab | lib/mm.c:546-561 | the block is carved down to the wanted order, the other halves become free |
| Buddy.Pool.AllocIdx | lib/mm.c:530-573 | fails exactly if blocks are in use and no linked block is large enough; otherwise takes a smallest fitting one |
| Buddy.Pool.MmAlloc | lib/mm.c:478-573 | NULL exactly for invalid sizes or as above; otherwise the first block of the first list that has one, carved down to the least order of the pool that holds the size: live, aligned, inside the memory given to mm_init; all invariants kept |
| Buddy.Pool.MmFree | lib/mm.c:585-622 | a live block is freed and coalesced; NULL, foreign addresses, free blocks and other addresses without an order in the table change nothing |
| Buddy.Pool.MmInit | lib/mm.c:737-827 | all invariants hold and the pool is one free block of the largest power of two that fits the memory, or -ENOMEM, exactly for less than 8 bytes, or less than 16 with a granularity above 8 |
| Buddy.InitOrders | lib/mm.c:745-790 | the orders settled on are in order |
| Buddy.InitOrdersExact | lib/mm.c:745-790 | the pool order is the largest that fits the memory; the block order is the least for granularity and links, or one below the pool's if that is too large |
| Buddy.WantedLeast | lib/mm.c:484-500 | the order of a request is the least that holds it, but at least that of the smallest block |
| Buddy.OrderFits | lib/mm.c:416-461 | the order chosen for a size is the smallest whose blocks hold it |
| Buddy.EmptyLists | lib/mm.c:532-544 | empty lists mean that no free block away from the base has a fitting order |
| Buddy.UnusedPool | lib/mm.c:530-554 | with no block in use all lists are empty and the base is one free block of the highest order |
| Buddy.BaseBlockIsSkipped | lib/mm.c:392-399 | a state in which the only fitting block is at the base and no list offers it |
| Buddy.SkippedRun | lib/mm.c:478-622 | init, two allocations and a free reach that state: the next allocation gets NULL although the base is free and large enough |
| Buddy.StaleOrderRun | lib/mm.c:315-363 | init, two allocations and two frees end with an address inside a free block that mm_free does not refuse |
| KmemChain.TakeStep | kernel/kmem.c:128-149 | taking a free chunk off the list keeps chain, list, count and merging in agreement |
| KmemChain.SplitStep | kernel/kmem.c:156-197 | so does splitting a chunk |
| KmemChain.JoinStep | kernel/kmem.c:204-212 | so does merging a chunk with a free neighbour |
| KmemChain.GiveStep | kernel/kmem.c:744-754 | so does listing a chunk between chunks in use |
| KmemChain.GrowStep | kernel/kmem.c:452-470 | so does extending the last chunk to a higher break |
| KmemChain.AppendStep | kernel/kmem.c:472-493 | so does a fresh chunk at the old break |
| KmemChain.DropStep | kernel/kmem.c:276-294 | so does giving up the last chunk |
| KmemChain.LiveApart | kernel/kmem.c:419-514 | no two chunks overlap, headers included |
| Kmem.Heap.constructor | kernel/kmem.c:378-407 | an empty chain behind the initial header, without a gap exactly if the break is right behind it |
| Kmem.LenWraps | kernel/kmem.c:431-431 | up to 2^32 - 40 the length is the aligned size with a header, beyond it is at most a header |
| Kmem.Heap.FindFreeChunk | kernel/kmem.c:128-149 | first fit: a chunk behind smaller ones only, or none if all are too small |
| Kmem.Heap.Split | kernel/kmem.c:156-197 | lower part, header and upper part make up the old chunk; list, count and end of the chain follow; no split without room for a header |
| Kmem.Heap.Merge | kernel/kmem.c:204-212 | two neighbours become one chunk |
| Kmem.Heap.UseFree | kernel/kmem.c:437-449 | one chunk comes into use, with at most a header's worth of surplus |
| Kmem.Heap.ExpandLast | kernel/kmem.c:452-470 | the last chunk, large enough now, comes into use and ends at the break |
| Kmem.Heap.FreshChunk | kernel/kmem.c:472-493 | a new chunk from the old break to the new one; one that gets less than a header overruns the break |
| Kmem.Heap.Extend | kernel/kmem.c:452-508 | without a fitting chunk the last one grows if it is free, otherwise a fresh one comes; NULL exactly if the break is refused |
| Kmem.Heap.Kmalloc | kernel/kmem.c:419-514 | NULL exactly for size 0 or if no free chunk fits and the break is refused, then nothing but the failure flag changes; otherwise one new aligned chunk, first fit and bounded surplus, no gap added; it holds the size exactly up to 2^32 - 40, and the invariants hold exactly unless a wrapped length leaves no room for the header |
| Kmem.Heap.LazyRelease | kernel/kmem.c:224-255 | a large last chunk is split so that its upper part has the configured size |
| Kmem.Heap.ReleaseUnused | kernel/kmem.c:259-302 | a free last chunk is given up, or all of it but the configured maximum if that is exceeded, and the break goes down by just that and a header if the release is honoured; no chunk in use is touched; the chain reaches without a gap from the initial header to the break exactly if it is honoured |
| Kmem.Heap.Release | kernel/kmem.c:714-762 | two-sided merge: exactly this chunk goes out of use, all invariants kept; no gap exactly if nothing at the end was released or the release was honoured |
| Kmem.Heap.Kfree | kernel/kmem.c:658-766 | exactly the chunk at the pointer goes, NULL, foreign pointers and freed chunks change nothing; no gap exactly if nothing at the end was released or the release was honoured; without lazy release no free chunk stays at the end, and without release the merged chunk comes last on the free list, whose order is kept |
| Kmem.Heap.CopyBytes | kernel/kmem.c:637-638 | the bytes are copied one by one, ascending |
| Kmem.CopiedApart | kernel/kmem.c:637-638 | between areas that do not overlap the bytes arrive and all others stay |
| Kmem.Heap.Krealloc | kernel/kmem.c:578-647 | NULL exactly for a pointer to no chunk or where kmalloc returns it, and then the old block and all contents stay; otherwise a disjoint block starts with min(old, new) bytes of the old contents, all other blocks keep theirs, the old one is freed, and gaps are as with kfree; the block returned is in use exactly unless it is the freed block itself; the copy leaves the block exactly if the length wrapped and the old block is larger than the new one, or this overruns the break |
| Kmem.GapRun | kernel/kmem.c:259-302 | kmalloc, kmalloc, kfree with the release refused end with a gap before the break |
| Kmem.WrapRun | kernel/kmem.c:419-514 | kmalloc(0xFFFFFFF0) returns a block without room, or one that overruns the break |
| Kmem.WildRun | kernel/kmem.c:578-647 | krealloc of 104 bytes to 0xFFFFFFF0 copies them all into a block without room |
| Kmem.DanglingRun | kernel/kmem.c:578-647 | kmalloc, kfree and krealloc of one pointer, which is returned and points to no block in use |
| SpwRing.ArmStep | kernel/grspw2.c:1437-1462 | enabling the first free descriptor keeps used and free lists a rotation of the table and appends its packet |
| SpwRing.ReleaseStep | kernel/grspw2.c:1516-1522 | releasing the oldest completed descriptor keeps the rotation and removes the oldest packet |
| SpwRing.CompleteStep | kernel/grspw2.c:1247-1281 | the core completes descriptors in the order of the used list, completed ones form a prefix |
| SpwSession.SafeForever | kernel/grspw2.c:1936-1976 | from a safe state no sequence of arrivals and consumed packets puts the ring out of order |
| SpwSession.HarmDone | kernel/grspw2.c:1936-1976 | from any other state some sequence does |
| SpwSession.SafeExactly | kernel/grspw2.c:1936-2041 | so a session stays in order in every continuation exactly if it starts safe |
| SpwSession.FlowStep | kernel/grspw2.c:1979-2041 | a session with its own flag alone, ahead of the core, has a descriptor for every packet, for ever |
| SpwDriver.RxRing.constructor | kernel/grspw2.c:932-977 | all descriptors free and disabled, in table order |
| SpwDriver.RxRing.DescAdd | kernel/grspw2.c:1437-1462 | the first free descriptor is armed, or -1 if there is none |
| SpwDriver.RxRing.Readd | kernel/grspw2.c:1516-1522 | the lists turn by one; if the head was completed, its packet is consumed and the ring stays in order |
| SpwDriver.RxRing.CoreReceive | kernel/grspw2.c:1247-1281 | the core stores a packet exactly if the descriptor at its cursor is enabled |
| SpwDriver.RxRing.NumPktsAvail | kernel/grspw2.c:1853-1867 | the number of packets received but not consumed |
| SpwDriver.RxRing.DropPkt | kernel/grspw2.c:2164-2205 | the oldest pending packet is dropped, if there is one; the ring stays in order, a session stays one |
| SpwDriver.RxRing.GetPkt | kernel/grspw2.c:2101-2157 | the oldest pending packet is copied without its stripped header, or as many bytes as the size has after it wrapped if it is shorter than that; a size query consumes nothing |
| SpwDriver.RxRing.AutoDropCall | kernel/grspw2.c:1936-1976 | from any state in order, the ring stays in order exactly if the core has completed as many descriptors as are recycled; the drop index then follows the head |
| SpwDriver.RxRing.Receive | kernel/grspw2.c:1936-1976 | a reception with its interrupt leaves the ring in order exactly unless a flag fires too early, and exactly the announced number of packets is dropped; seen from the head it is the step of SpwSession; a safe session stays safe, and a flowing one stores the packet and flows on |
| SpwDriver.RxRing.AutoDropEnable | kernel/grspw2.c:2004-2041 | -1 if a session is on; otherwise the number to drop leaves one descriptor at least, and the state is the one whose safety SpwSession.SafeExactly decides; with all descriptors armed the session flows exactly if no other flag is set, at least one packet is dropped at a time and the flagged descriptor is not completed |
| SpwDriver.RxRing.AutoDropDisable | kernel/grspw2.c:2051-2064 | the session ends, its interrupt flag stays |
| SpwRuns.RunReceive | kernel/grspw2.c:1853-2205 | every run with sessions, up to a packet that puts the ring out of order or one shorter than its header: packets received are those consumed followed by those pending, in order, and those handed out are the fetched ones, stripped; only a session that did not start safe puts the ring out of order |
| SpwRuns.FirstInterrupt | kernel/grspw2.c:1936-2041 | the first interrupt of a session, without driver calls before, keeps the ring in order exactly if the first flag ahead is far enough behind the head |
| SpwRuns.StaleRun | kernel/grspw2.c:1936-2064 | two sessions and two packets after which no reading of the ring is in order |
| SpwRuns.Continue | kernel/grspw2.c:1936-2205 | packets and drops in a session put the ring out of order exactly if the moves of SpwSession say so |
| SpwRuns.FullRun | kernel/grspw2.c:1936-2041 | a session of 2 on a full ring of 5 drops nothing, and the next packet is not stored |
| SpwRuns.ShortPacketRun | kernel/grspw2.c:2124-2132 | a packet of 3 bytes with 4 to strip: 2^32 - 1 bytes are copied |
| SpwDriver.NotInOrder | kernel/grspw2.c:1936-1976 | an enabled descriptor at the head with the core elsewhere cannot be put in order |
| SpwDriver.TxRing.constructor | kernel/grspw2.c:984-1045 | all descriptors free and disabled, in table order |
| SpwDriver.TxRing.MoveFreeAll | kernel/grspw2.c:1105-1118 | exactly the completed descriptors are moved to the free list, in order |
| SpwDriver.TxRing.DescAddPkt | kernel/grspw2.c:1534-1614 | a well-formed packet is refused exactly if every descriptor is still busy; header and data accepted are those asked for, below 256 bytes and 16 MiB |
| SpwDriver.FieldIs | kernel/grspw2.c:1576-1591 | in general the front of the buffer, of the size modulo the width of its field |
| SpwDriver.TxRing.AddPkt | kernel/grspw2.c:2213-2231 | the same, and the byte count grows by the sizes of accepted packets only |
| SpwDriver.TxRing.CoreTransmit | kernel/grspw2.c:1267-1292 | the next packet sent is the next one accepted |
| SpwRuns.RunTransmit | kernel/grspw2.c:1534-1614 | after every run, the packets sent are a prefix of those accepted, and these are offered ones, whole below the size limits, in the order of the offers |
| ProcTask.Task.constructor | lib/data_proc_task.c:447-489 | all steps of the pool are free |
| ProcTask.Task.AddStep | lib/data_proc_task.c:260-284 | the chain grows at its end; -EINVAL for op code 0, -ENOMEM for an empty pool |
| ProcTask.Task.NextPendStepDone | lib/data_proc_task.c:186-199 | the pending step becomes the newest done one |
| ProcTask.Task.DelAllPending | lib/data_proc_task.c:111-115 | nothing is pending any more, the chain is kept |
| ProcTask.Task.RewindStepsDone | lib/data_proc_task.c:82-93 | the whole chain is pending again, in its original order |
| ProcTask.NextDoneKeeps | lib/data_proc_task.c:186-199 | completing a step keeps the chain and lowers the number of pending steps |
| ProcTask.AllDoneKeeps | lib/data_proc_task.c:111-115 | clearing all steps keeps the chain |
| ProcTask.RewindUndoes | lib/data_proc_task.c:82-93 | rewinding undoes completed and cleared steps |
| ProcQueue.PutNode | lib/data_proc_tracker.c:115-136 | counter equals list length, the op code matches, exactly this task is added |
| ProcQueue.GetNode | lib/data_proc_tracker.c:193-211 | counter equals list length, exactly the oldest task is removed |
| ProcQueue.FirstInFirstOut | lib/data_proc_tracker.c:115-211 | tasks leave a tracker in the order in which they came |
| ProcQueue.PrioritisedRearranges | lib/data_proc_net.c:223-233 | moving critical nodes to the head keeps all nodes and tasks |
| ProcQueue.PrioritisedOrder | lib/data_proc_net.c:223-233 | of two nodes the one behind comes first exactly if it has reached its critical number of tasks |
| ProcQueue.CriticalPicked | lib/data_proc_net.c:223-273 | if any node is critical, a critical one is picked |
| ProcNet.Net.constructor | lib/data_proc_net.c:601-639 | an empty network |
| ProcNet.Net.AddNode | lib/data_proc_net.c:562-584 | appended with the tasks it may hold, or -EINVAL for the reserved op codes |
| ProcNet.Net.InputTask | lib/data_proc_net.c:425-434 | exactly this task is added to the input node |
| ProcNet.Net.FindTracker | lib/data_proc_net.c:124-136 | the first node with the op code, or none if no node has it |
| ProcNet.Net.TaskToNextNode | lib/data_proc_net.c:149-185 | to the output if nothing is pending, to the end of the first node with the pending op code, or destroyed exactly if there is none |
| ProcNet.Net.QueueCriticalTrackers | lib/data_proc_net.c:223-233 | critical nodes first, in reverse order, then the others in order |
| ProcNet.Net.ScanQueue | lib/data_proc_net.c:258-270 | although the walk moves what it visits, it finds the first node with a task, or passes all of them |
| ProcNet.Net.GetNextPendingTracker | lib/data_proc_net.c:247-273 | none exactly if no node holds a task; otherwise the first one in priority order, now last in the queue |
| ProcNet.Net.EvalTaskStatus | lib/data_proc_net.c:306-377 | by return code: for success and stop exactly one step is done and the task goes to the output if that was the last, to a node for the next one, or is destroyed if there is none; where it goes otherwise, and whether the node goes on |
| ProcNet.Net.ProcessNext | lib/data_proc_net.c:391-418 | ends for all return codes, 0 exactly if no node held a task; all calls are for the first node in priority order with a task, beginning with its oldest, until it is empty or an operation stops it; no task or step lost, op codes match nodes, losses have their reason |
| ProcTrace.DueIs | lib/data_proc_net.c:149-185 | what is due for a task: its pending steps up to the first that no node has |
| ProcTrace.CallStep | lib/data_proc_net.c:391-418 | one call: what was called for a task and what is due, together, stay the same, or end early |
| ProcNet.Net.Drain | lib/data_proc_net.c:391-418 | without rescheduling, repeating it ends with all nodes empty and every task in the output with nothing pending, taken over, or destroyed for an unknown op code or invalid return code; the operations called for a task are what was due, in order, if all succeed, and a prefix of that otherwise |
| ProcNet.Net.ProcessInputs | lib/data_proc_net.c:443-486 | -1 exactly without nodes; otherwise every input task is in a matching node or destroyed, in order, exactly if no node has its pending op code |
| ProcNet.StepLessIsStray | lib/data_proc_net.c:465-479 | an input task without steps is destroyed |
| ProcNet.StrayIsLost | lib/data_proc_net.c:465-479 | so is every input task whose op code no node has |
| ProcNet.Net.ProcessOutputs | lib/data_proc_net.c:499-522 | the output operation gets every finished task once, in order |
| EdfArith.LcmByGcd | kernel/sched/edf.c:231-238 | multiplying by period / gcd gives a common multiple that divides every other |
| EdfArith.HyperperiodUnique | kernel/sched/edf.c:209-264 | the hyperperiod does not depend on the order of the queues |
| EdfArith.CheckedIsAdmissible | kernel/sched/edf.c:947-1066 | a task that passes edf_check_sched_attr, periodic or not, reaches the slot test with its time below the deadline and this within the period, exactly unless its period is negative |
| EdfArith.ShareRoundsDown | kernel/sched/edf.c:416-432 | a share times the period is at most h * wcet * slots, and more than that with one slot added; a later deadline takes nothing before it |
| EdfArith.TakenUnrounded | kernel/sched/edf.c:409-496 | rounding takes at most a slot off for each task |
| EdfArith.TakenGrows | kernel/sched/edf.c:409-437 | slots taken are not negative and grow with every task |
| EdfArith.TakenUnordered | kernel/sched/edf.c:409-496 | slots taken do not depend on the order of the queues |
| Edf.SubtractiveGcd | kernel/sched/edf.c:231-236 | ends, with the greatest common divisor |
| Edf.Extend | kernel/sched/edf.c:222-239 | one turn adds one period to the least common multiple |
| Edf.EdfHyperperiod | kernel/sched/edf.c:209-264 | for positive periods, every period divides the result, and it divides every common multiple of the periods |
| Edf.LongestPeriodTask | kernel/sched/edf.c:330-360 | the first of the tasks with the longest period, the new one before all others |
| Edf.Charge | kernel/sched/edf.c:409-437 | 0 exactly if both sums fit, with what is left; -1 means the head is short, -2 the tail |
| Edf.TestSlotUtilisation | kernel/sched/edf.c:368-501 | 0 exactly if the head and the tail sums of all other tasks fit next to the longest task, over the hyperperiod |
| Edf.PassesUnrounded | kernel/sched/edf.c:368-501 | a queue passes if its unrounded head and tail sums fit; if it passes they exceed the room by at most one slot a task |
| Edf.OrderMattersExactly | kernel/sched/edf.c:330-501 | all orders of the queues give the same verdict exactly if the new task is among the longest or all of the longest queued tasks lead to the same verdict |
| Edf.VerdictUnordered | kernel/sched/edf.c:368-501 | with the same longest task the verdict does not depend on the order |
| Edf.TieMatters | kernel/sched/edf.c:330-360 | two orders of the same tasks, one admitted and one refused |
| Edf.ShareCovers | kernel/sched/edf.c:416-432 | head and tail share cover a task's demand up to one slot |
| Edf.DemandBound | kernel/sched/edf.c:368-501 | if no deadline exceeds the longest task's, fitting sums bound the demand by the hyperperiod plus the number of other tasks |
| Edf.PassBoundsDemand | kernel/sched/edf.c:368-501 | so does a pass of the test, with the longest task that it chooses |
| Edf.LateDeadlineOverload | kernel/sched/edf.c:414-432 | with a later deadline a queue passes that needs 99 slots of 90 |
| RoundRobin.WalkStep | kernel/sched/rr.c:76-103 | what one visit does to the queue: kept, renewed at the end, or buried |
| RoundRobin.WalkParts | kernel/sched/rr.c:76-103 | dead tasks of the CPU are buried, its tasks without time renewed, all others kept |
| RoundRobin.WalkOn | kernel/sched/rr.c:76-103 | the saved successor is the right next entry although the queue was rearranged |
| RoundRobin.NothingPicked | kernel/sched/rr.c:59-113 | NULL exactly if no task is allowed and waiting to run |
| RoundRobin.FirstFreshPicked | kernel/sched/rr.c:59-113 | the first task with time left goes before all that used theirs up |
| RoundRobin.PickedShape | kernel/sched/rr.c:59-113 | the queue after a pick: kept tasks, the pick marked busy, what was behind it, and the renewed tasks |
| RoundRobin.Scheduler.PickNext | kernel/sched/rr.c:59-113 | ends; the pick is marked busy, exhausted tasks before it are renewed at the end of the queue, dead ones are moved away, nobody is lost |
| RoundRobin.Scheduler.Wake | kernel/sched/rr.c:173-225 | from the wake list to the head of the run queue with a full slice; -EINVAL for others |
| RoundRobin.Scheduler.Enqueue | kernel/sched/rr.c:233-281 | appended to the wake list with a priority of at least 1 |
| RoundRobin.Scheduler.UpdateRuntime | kernel/sched/core.c:204-216 | the time used is subtracted, a busy task may run again, all else stays |
| RoundRobin.PickAgain | kernel/sched/rr.c:59-113 | a task alone is picked again however much time it used |
| RoundRobin.WakeThenPick | kernel/sched/rr.c:173-225 | a task woken up is the next one on a CPU it may run on |
| RoundRobin.Slice | kernel/sched/rr.c:59-113 | a head of the queue using u at a time is picked exactly as often as it takes to leave no more than two minimum ticks, with nothing else changed |
| Memmove.CopyWord | lib/string.c:439-445 | a word moves between aligned addresses |
| Memmove.MemmoveFwd | lib/string.c:401-461 | ascending, for a destination below the source: the bytes arrive, all others stay, no unaligned word access |
| Memmove.MemmoveBwd | lib/string.c:463-521 | descending, for a destination above the source: the same |
| Memmove.MoveMemory | lib/string.c:537-548 | the destination holds the old source and every other byte is unchanged, for every overlap, alignment and length (section 7.21.2.2 of ISO/IEC 9899:1999) |
| Median.Count | kernel/testmodule.c:698-713 | counts around the guess, and the nearest elements within the bracket |
| Median.TurnKeeps | kernel/testmodule.c:687-723 | a turn keeps the median in the bracket or returns it, whether the sum overflows or not |
| Median.EndsWithMedian | kernel/testmodule.c:665-727 | for every array, if the method ends it returns the ((len + 1) / 2)-th smallest element |
| Median.FitsFinishes | kernel/testmodule.c:687-723 | it ends if the median plus any element fits into 32 bits |
| Median.EndsExactly | kernel/testmodule.c:687-723 | a remark: as with any walk through finitely many brackets, it ends exactly if none comes twice |
| Median.OverflowAtOnce | kernel/testmodule.c:690-690 | if min + max overflows, it ends exactly for a single element |
| Median.OverflowLater | kernel/testmodule.c:690-722 | five elements whose min + max fits and for which it never ends |
| Median.OverflowRecovers | kernel/testmodule.c:690-722 | seven elements for which a sum overflows and it ends all the same |
| Median.FromAbove | kernel/testmodule.c:719-720 | closing the bracket from above keeps the median in it |
| Median.FromBelow | kernel/testmodule.c:721-722 | so does closing it from below |
| Median.Median | kernel/testmodule.c:665-727 | for every array on which it ends it returns the ((len + 1) / 2)-th smallest element |
| Median.KthOfSorted | kernel/testmodule.c:665-675 | that is the element at this position once the array is sorted |
| Median.KthUnique | kernel/testmodule.c:665-675 | and there is only one |

## Left out

- Compressor.Compress: sizes are below 2^32 words and bit counters do not overflow (inputs of up to 2^26 words); a word count of 2^31 or more, which the code converts to a negative number, is not modelled.
- ChunkEncoder.Encoder: one CPU's slot of the coder variables; the C pointers into the swap buffer are separate arrays, and the table of upper bounds is read as the same table one entry further.
- Buddy.Pool.MmFree: requires the start of a block or an address that the tables refuse, because a stale order (`lib/mm.c:346-349`) lets mm_free go on with an address inside another block; what happens then is not modelled.
- Buddy.Pool.MmAlloc: for sizes above 2^31 the code shifts 1UL by 32 (`include/kernel/log2.h:72`), which is undefined in C; the model computes the order without a bound and returns NULL.
- Buddy.Pool: the link words are modelled by whether they are set; the sysctl counters and mm_block_size are not modelled.
- Kmem.Heap: header fields are kept beside the chunks and not in the byte memory; corrupted headers, background release, boot memory and the sysctl file are not modelled. The answers of kernel_sbrk are arguments, limited by the address range. After a chunk that overruns the break, or a copy that leaves its block, nothing more is modelled.
- Kmem.Heap.Kfree: a pointer is taken to be refused unless it is the data pointer of a chunk; bytes inside a data area that imitate a header are not modelled.
- Kmem.Heap.Krealloc: the code, unlike the model, accepts what remains of a header that was merged away, because krealloc does not look at the magic number.
- SpwDriver.RxRing.Receive: the auto-drop interrupt is taken in the step that completes the flagged descriptor; while no session is on, interrupts do nothing. Once the ring is out of order nothing more is modelled.
- SpwDriver.RxRing.AutoDropEnable: requires a used descriptor; the code reads through a NULL pointer without one.
- SpwDriver.RxRing.GetPkt: packets longer than a buffer, error bits and the interrupt-enable flag are not modelled.
- Routing, register access, link and DMA error handling, CRC bits of kernel/grspw2.c.
- ProcNet.Net: nodes and tasks are values with ids instead of linked objects, so aliasing between lists is not captured; NULL arguments are not modelled; operations do not edit step lists; the calls are told apart by ids, so that no two tasks may have the same one. The methods of `ProcTask.Task` do work in place.
- Edf.TestSlotUtilisation: unbounded integers for ktime, and no negative periods (`EdfArith.CheckedIsAdmissible`); the unused minimum variables are dropped.
- Utilisation in floating point, edf_find_cpu, edf_schedulable and edf_pick_next.
- RoundRobin.Scheduler: one minimum tick for all CPUs; the dead lists of all CPUs are one sequence, and the cleanup thread is not modelled.
- Median.Median: requires that the loop ends, which takes following the run; a sufficient condition that a caller can check is `Median.FitsFinishes`. On other arrays the code does not return.
- Memmove.MoveMemory: the masks of the alignment tests are written as remainders.
- Locking, interrupt masking and races between CPUs: every call is atomic.
- Floating-point stages of the compressor demo, GetInterval28, ELF loading, sysctl, syscalls, console output and the Xentium driver.
- lib/chunk.c, lib/page.c, kernel/memscrub.c, kernel/time.c and kernel/noc_dma.c.
