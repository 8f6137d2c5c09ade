# Verified models of TamaGo drivers

TamaGo runs Go on bare metal. This project models the parts of it that are
algorithms or protocols rather than register programming, and proves what they
are for:

- the arm64 translation table builder (`arm64/mmu.go`);
- the first-fit DMA allocator (`dma/region.go`);
- the gVNIC receive and transmit rings (`kvm/gvnic`);
- the VirtIO split virtqueue (`kvm/virtio/queue.go`);
- the Microchip eMMC driver: transfer planning, ADMA2 chains, error recovery
  (`soc/microchip/sdhci`);
- three stream codecs: frame extraction (`soc/microchip/devcpu/port.go`), the
  streaming digest (`soc/nxp/caam/sha.go`) and mailbox tags
  (`soc/bcm2835/mailbox.go`).

`dafny verify dfyconfig.toml` checks everything.

## How things are modelled

Machine words are natural numbers. `Bits` defines AND and OR on them bit by bit
and proves the field laws the drivers use, so descriptor packing, the
power-of-two test and alignment masks are the source's own expressions.
Wrap-around of 16-, 32- and 64-bit arithmetic is written out.

Objects of the source are classes. Lists, maps and buffers they mutate are
fields that methods reassign; loops are loops. A panic of the source is a result
value. Hardware replies, timeouts and the number of polls before a deadline are
arbitrary.

A driver and its device share one object. Receiving and transmitting on gVNIC and
receiving on VirtIO are split at the accesses to shared memory, with any device
actions in between, and every step keeps one invariant; what is proved holds for
every interleaving of these steps. A payload is copied, a transmit descriptor
written and a used-ring entry read in one step each. A device action is one step,
except that a gVNIC packet is filled in and published in two. Calls of the driver
itself do not overlap.

Unbounded histories (packets, frames, completions, remappings, log events) are
kept beside the wrapped counters of the source, and the invariants say how the
two relate.

Some proofs hide the bodies of functions they do not need, which only takes
facts away from them.

Main results:

- **Address space.** Walking the tables left in memory by `Init` gives, for every
  39-bit address and every accepted layout, a fault in the first page, normal
  executable memory up to the end of text, normal execute-never memory in the
  rest of RAM and execute-never device memory elsewhere, all of it readable and writable at EL1 only. After any sequence of
  `ConfigureMMU` calls an address translates as the last call covering its 2 MB
  block says, or else as `Init` left it; splitting a gigabyte changes nothing. A
  call succeeds exactly when the arena has a page for each covered gigabyte that
  is still one block, and otherwise remaps a part of the range and nothing else.
  `Init` succeeds exactly when the arena has one page for each gigabyte and each
  2 MB block, other than the first, that a layout boundary cuts: at most six.
- **Allocator.** Free and used blocks tile the region, the free list is a
  function of the used blocks, and an allocation returns the lowest aligned
  address with enough free bytes, failing only when there is none.
- **gVNIC.** A packet is consumed exactly when its sequence number is found, once
  each and in order. Its bytes are delivered exactly when the length, which the
  driver reads first, shows as much of it as there is. This is guaranteed exactly
  when the packet was filled in at the call: otherwise, for every ring and lap,
  some packet that arrives between the two reads breaks it.
  Frames in flight are never overwritten, which is the case exactly when the slot
  count divides the counter range, and for each of them the device sends its bytes.
- **VirtIO.** Every descriptor is in exactly one place, completions are delivered
  once each in order, and queue memory always equals the serialised fields, which a
  device reads field by field.
- **eMMC.** After an error the driver has given up the controller or the log
  shows CMD12, the data-line reset and a CMD13 observation of the transfer state,
  all after the data command that failed; the log shows what went wrong.
  A successful write or read is one update or slice of a flat array, through the
  bytes the controller finds by walking the encoded ADMA2 table in memory, and the
  data commands in the log are those that cover the request, in order. Detection
  succeeds with a log and with card fields that are spelled out.
- **Codecs.** Encode and decode are inverse exactly under conditions a caller can
  check. Every frame without the not-ready value arrives byte for byte or with the
  error for its length. The decoder of mailbox replies is characterised on every
  buffer. A digest is the one-shot hash however the message was split.

Where the documentation, or what a reader would expect, and the code disagree the
code is modelled:

- `dma/region.go:106-107` says word alignment is always enforced. It is not for
  alignment arguments 1, 2 and 4 (`Dma.WordAlignment`).
- `kvm/virtio/queue.go` computes offsets in 16 bits. They are exact exactly for
  queues of at most 4096 descriptors (`VirtioLayout.OffsetsExact`). Its 16-bit
  indices find the right slots exactly for powers of two (`Virtio.SlotsExact`).
- `soc/microchip/sdhci/mmc.go:315-318` says that the driver is ready when `Detect`
  completed. It is ready after a panic in `Detect` as well, because the deferred
  function finds no error. Ready means success exactly when the region can place
  512 bytes and then 8 bytes on 16-byte boundaries, at each register read
  (`Sdhci.ReadyMeansDetected`, `Sdhci.SDHCI.Detect`). Without room at the first
  read the driver has no capacity and refuses every transfer. Without room at the
  second, which needs another user of the region, it has capacity on a bus mode
  that was not verified.
- `arm64/mmu.go:317-324` says that only the text region is executable. Everything
  from the start of RAM to the end of text is, translation tables and arena
  included, for every accepted layout (`MmuSpec.ExecutableBeforeText`).
- `soc/nxp/caam/sha.go:103-126` says that `Sum` terminates a digest. A failed `Sum`
  gives up the lock and can be repeated, which unlocks again: a fatal error, or the
  loss of the lock of another digest (`Digest.Digest.Sum`, `Digest.SumTwiceRun`).
- `kvm/gvnic/gve.go:187-188` reads the length of a packet before the sequence
  number that announces it (`Gvnic.LostPacketRun`, `Gvnic.StaleLengthRun`,
  `Gvnic.UnfilledBreaks`).
- `soc/microchip/sdhci/sdhci.go:467` compares the end of the region in 64-bit
  arithmetic, so a region that ends with the address space passes
  (`Sdhci.EndAcceptedExactly`).
- `dma/region.go:124-129` says that `Reserved` tells whether a buffer is in the
  region. The comparison wraps, so a buffer that ends with the address space counts
  as inside whenever it starts in or above the region, and a region that ends with
  the address space recognises no other buffer (`Dma.ReservedExactly`).
- `soc/bcm2835/mailbox.go:140` compares the length of a tag with what is left of the
  buffer from its header on, so a tag may claim up to 12 bytes more than the buffer
  holds. They are decoded as zeroes (`Mailbox.DecodeExactly`).
- A block at address zero is never freed (`dma/region.go:336-338`), so the eMMC
  model takes a region that does not start at zero.
- `arm64/mmu.go` accesses its tables through the mapping that `ConfigureMMU`
  changes. The model accesses them physically.

## Model

| member | source | states |
|---|---|---|
| MmuSpec.Expected | arm64/mmu.go:96-126 | the address space the code sets up: faults exactly in the first 4096 bytes, maps every other address to itself, normal exactly in RAM and device elsewhere, executable exactly from the start of RAM to the end of text and otherwise execute-never at both levels; readable and writable at EL1 only, access flag set, inner shareable in RAM and outer shareable elsewhere |
| MmuSpec.ExecutableBeforeText | arm64/mmu.go:317-324 | RAM before the text, with the tables and the arena, is executable as well as the text |
| MmuSpec.MappingDecodes | arm64/mmu.go:128-139 | a word built by `writeMapping` decodes to the address, descriptor type and attributes it was built from |
| MmuSpec.UniformBlock | arm64/mmu.go:96-115 | a block that is not split has one mapping throughout, the one of its class |
| MmuSpec.PageNeverSplit | arm64/mmu.go:117-126 | a page is never split, so the alignment panic cannot happen |
| MmuSpec.MaskAddress | arm64/mmu.go:311 | the address mask extracts the output address |
| MmuSpec.MaskAttributes | arm64/mmu.go:301 | the complemented mask keeps exactly the attribute fields |
| MmuSpec.LeafL1 | arm64/mmu.go:224-244 | reading back an unsplit gigabyte entry gives the intended mapping at every address of it |
| MmuSpec.LeafL2 | arm64/mmu.go:248-268 | the same for a 2 MB entry |
| MmuSpec.LeafL3 | arm64/mmu.go:272-284 | the same for a page entry |
| MmuTables.CutByBoundary | arm64/mmu.go:96-115 | a block is split exactly when a layout boundary lies strictly inside it |
| MmuTables.SixPagesSuffice | arm64/mmu.go:224-284 | for every layout `Init` needs at most six arena pages |
| MmuTables.SixPagesReached | arm64/mmu.go:224-284 | a layout that needs all six |
| MmuTables.TablesNeverOverlap | arm64/mmu.go:84-94 | table pages are disjoint from each other and lie between the vector table and the text |
| MmuTables.StepL2 | arm64/mmu.go:254-267 | filling one more second-level entry, with any table it needs, keeps the entries and tables filled before |
| MmuTables.StepL1 | arm64/mmu.go:230-243 | filling one more first-level entry, with all tables it needs, keeps what was filled before |
| MmuTables.WalkFilledL3 | arm64/mmu.go:272-284 | walking a filled third-level table gives the intended mapping |
| MmuTables.WalkFilledL2 | arm64/mmu.go:248-268 | walking a filled second-level table gives the intended mapping, through block or page entries |
| MmuTables.WalkFilledL1 | arm64/mmu.go:224-244 | the same from the root, through any mix of entries |
| MmuRemap.InitWalk | arm64/mmu.go:325-347 | walking the finished tables gives the intended address space at every 39-bit address |
| MmuRemap.InitLinked | arm64/mmu.go:325-347 | the finished tables form a tree in which each page has one role and every first-level block is flat |
| MmuRemap.StoredWalk | arm64/mmu.go:384 | storing a 2 MB descriptor changes the translation of that block and of no other address |
| MmuRemap.StoredLinked | arm64/mmu.go:384 | the store keeps the tables a tree |
| MmuRemap.SplitTranslates | arm64/mmu.go:297-305 | the second-level blocks made from a flat first-level block translate as it did |
| MmuRemap.SplitWalk | arm64/mmu.go:289-315 | splitting a gigabyte changes no translation |
| MmuRemap.SplitLinked | arm64/mmu.go:289-315 | splitting keeps the tables a tree |
| MmuRemap.RemapStep | arm64/mmu.go:375-385 | one pass of the loop remaps one more block and nothing else |
| MmuRemap.WordKind | arm64/mmu.go:384 | the descriptor type of the flags survives the combination with the address |
| MmuRemap.RemapTranslates | arm64/mmu.go:363-367 | with block flags that set the access flag and no address bits, and a target below 48 bits, an address maps to the same offset from the rounded alias, or to itself without one, with the attributes of the flags |
| MmuRemap.Configured | arm64/mmu.go:363-388 | what one more call adds to a history, in addresses: outside the range, rounded down to 2 MB at both ends, nothing changes; inside, with block flags that set the access flag, an address maps to its offset from the rounded alias, or to itself without one, with the attributes of the flags |
| MmuRemap.UnsplitStep | arm64/mmu.go:375-385 | the gigabyte of a remapped block is paid for once, when it is still one block |
| MmuRemap.StoredRoot | arm64/mmu.go:384 | storing a 2 MB descriptor leaves the first-level table alone |
| Mmu.MmuMap.Alloc | arm64/mmu.go:84-94 | takes the next arena page for one role, or panics exactly when the arena is exhausted |
| Mmu.MmuMap.InitL3Table | arm64/mmu.go:272-284 | writes exactly the remaining entries of one table with the classified pages |
| Mmu.MmuMap.InitL2Entry | arm64/mmu.go:255-266 | one second-level entry: a classified block, or a link to a new filled table, touching nothing else |
| Mmu.MmuMap.InitL2Table | arm64/mmu.go:248-268 | the remaining second-level entries; succeeds exactly when the arena has their pages |
| Mmu.MmuMap.SplitL1Entry | arm64/mmu.go:236-239 | links and fills a second-level table for a cut gigabyte |
| Mmu.MmuMap.InitL1Entry | arm64/mmu.go:231-242 | one first-level entry with everything below it |
| Mmu.MmuMap.InitL1Table | arm64/mmu.go:224-244 | the remaining first-level entries; succeeds exactly when the arena has their pages |
| Mmu.MmuMap.InitLayout | arm64/mmu.go:57-82 | accepts a layout exactly when RAM is page aligned, rounded text is inside RAM and the arena is not empty; each panic exactly on its condition |
| Mmu.RoundedOutward | arm64/mmu.go:67-68 | the text is rounded outward to pages, by less than a page on each side |
| Mmu.MmuMap.LinkFixedTables | arm64/mmu.go:328-342 | the three fixed tables are linked and the first page is invalid |
| Mmu.MmuMap.BuildTables | arm64/mmu.go:328-347 | all tables are filled and survive each other's construction |
| Mmu.MmuMap.Init | arm64/mmu.go:325-361 | each panic exactly on its condition; succeeds exactly when the layout is accepted and the arena has the pages needed; then every 39-bit address translates as intended, from the table TTBR0 points to, under registers that give the attribute indices and address width this walk assumes |
| Mmu.MmuMap.SetRegisters | arm64/mmu.go:349-360 | MAIR gives index 0 Device-nGnRnE and index 1 Normal write-back; TCR gives 39-bit addresses, the 4 KB granule, shareable cacheable walks and no TTBR1 walks; TTBR0 is the root table |
| Mmu.MmuMap.SplitGigabyte | arm64/mmu.go:293-309 | replaces a first-level block by a table of derived blocks |
| Mmu.MmuMap.FillSplit | arm64/mmu.go:297-305 | the derived descriptors, and nothing else written |
| Mmu.MmuMap.L2Entry | arm64/mmu.go:289-315 | the address of the block's descriptor; panics exactly when a split is needed and the arena is exhausted; takes a page exactly for a split; no translation and no other first-level entry changes |
| Mmu.MmuMap.RemapBlock | arm64/mmu.go:375-385 | one block remapped under the history, with its exact page cost |
| Mmu.MmuMap.ConfigureMMU | arm64/mmu.go:363-388 | succeeds exactly when the arena has a page for each covered gigabyte that is still one block, and takes exactly these; then every address translates as the extended history of calls says; otherwise the blocks before some block of the range are remapped and nothing else |
| Bits.PowerOfTwoTest | dma/region.go:267 | the bit test recognises exactly the powers of two |
| Bits.AndMask | dma/region.go:276 | masking with a power of two less one is the remainder |
| Dma.ExactlyOneBlock | dma/region.go:243-355 | every address of the region lies in exactly one free or used block |
| Dma.CanonicalUnique | dma/region.go:243-260 | two sorted, non-touching free lists covering the same addresses are equal |
| Dma.FreeListFromUsed | dma/region.go:243-333 | equal used blocks give equal free lists, whatever the histories |
| Dma.AllFreed | dma/region.go:39-52 | with nothing in use the free list is the initial block |
| Dma.EffectiveAlignment | dma/region.go:267-269 | the argument if it is a power of two, else the default, always a power of two |
| Dma.PaddingIsMinimal | dma/region.go:276 | the padding leads to the next aligned address |
| Dma.FirstFitIsLowest | dma/region.go:271-287 | the first fitting block gives the lowest placement in the whole region, and no fitting block means there is no placement |
| Dma.ListedIsLowest | dma/region.go:271-287 | the same for the one empty block of an empty region |
| Dma.AllocTiling | dma/region.go:289-315 | cutting the allocation out of its block keeps the invariant |
| Dma.InsertedOrdered | dma/region.go:323-332 | a freed block inserted by address is ordered between its neighbours |
| Dma.MergedKeeps | dma/region.go:247-259 | one coalescing step keeps coverage and leaves no touching neighbours |
| Dma.FreeTiling | dma/region.go:318-333 | giving back a used block keeps the invariant |
| Dma.AllocFreeRestores | dma/region.go:262-333 | freeing what was just allocated restores the very same list |
| Dma.WordAlignment | dma/region.go:106-107 | every placement is word aligned exactly for alignment arguments other than 1, 2 and 4 |
| Dma.NegativeSize | dma/region.go:278 | a block is taken for a negative size exactly when the padding makes up for it |
| Dma.Region.constructor | dma/region.go:39-52 | one free block covering the region, which may be empty |
| Dma.Region.Defrag | dma/region.go:243-260 | same coverage, sorted, nothing touching |
| Dma.Region.TakeFirstFit | dma/region.go:262-316 | a block of exactly the size at the lowest placement, or out of memory exactly when there is none |
| Dma.Region.Return | dma/region.go:318-333 | the invariant without the freed block |
| Dma.Region.Reserve | dma/region.go:108-122 | records a reserved block at the lowest placement; nothing changes for size zero or when out of memory |
| Dma.Region.Alloc | dma/region.go:143-163 | the address of a buffer that stays put, with nothing allocated; for any other a copy at the lowest placement, recorded as not reserved; a buffer that does not end with the address space stays put exactly when every byte of it is in the region and the region ends below the address space |
| Dma.ReservedExactly | dma/region.go:127-132 | the 64-bit comparison holds exactly for buffers inside a region that ends below the address space, and for buffers that end with it and start in or above the region |
| Dma.Region.FreeBlock | dma/region.go:335-355 | frees exactly a block of the right kind at a non-zero address, else changes nothing |
| Rings.SlotOfWrapped | kvm/gvnic/gve.go:184 | the slot of a wrapped counter is the slot of the unbounded count |
| Rings.SlotsApart | kvm/gvnic/gve.go:216-217 | entries less than a lap apart are in different slots |
| Gvnic.LapChangesSequence | kvm/gvnic/queue.go:163-167 | one lap of a power-of-two ring always changes the sequence number |
| Gvnic.FreshSlot | kvm/gvnic/gve.go:188-192 | the sequence number matches exactly for a published packet not consumed yet; stale and zeroed descriptors never match |
| Gvnic.LengthInSlot | kvm/gvnic/gve.go:187 | the length at the cursor is that of the packet there, or of the packet one lap before, or zero |
| Gvnic.CutDelivers | kvm/gvnic/gve.go:196-204 | the bytes a length delimits are those of the packet exactly when it shows as many as the packet has |
| Gvnic.DeliveredFrame | kvm/gvnic/gve.go:196-206 | what counts as delivered is the frame behind two bytes of padding, cut to the buffer |
| Gvnic.SlotReuse | kvm/gvnic/gve.go:216-226 | frames in flight never share a slot exactly when the slot count divides the counter range |
| Gvnic.SharedSlot | kvm/gvnic/gve.go:216-226 | the two frames that share a slot when it does not |
| Gvnic.RxQueue.constructor | kvm/gvnic/queue.go:259-310 | the ring starts zeroed and fully posted, sequence number 1 expected, the device told so |
| Gvnic.RxQueue.DeviceFill | kvm/gvnic/gve.go:187-202 | filling in the payload and length of packet k in its slot, never past the posted fill, keeps the invariant |
| Gvnic.RxQueue.DevicePublish | kvm/gvnic/gve.go:188 | publishing the oldest filled packet, number k, by the low bits k % 7 + 1 of its flags keeps the invariant |
| Gvnic.RxQueue.Next | kvm/gvnic/queue.go:159-179 | advances cursor and sequence number by one, 7 being followed by 1; then as Refill |
| Gvnic.RxQueue.Refill | kvm/gvnic/queue.go:169-178 | posts the whole ring exactly when at most half of it is still posted, and the device is told the count |
| Gvnic.RxQueue.ReadLength | kvm/gvnic/gve.go:184-187 | the first read gives the length of the packet at the cursor, or a stale one |
| Gvnic.RxQueue.ReadFresh | kvm/gvnic/gve.go:188-192 | the second read matches exactly when an unconsumed packet is published |
| Gvnic.RxQueue.Copy | kvm/gvnic/gve.go:196-206 | delivers the packet exactly when the length in hand shows as much of it as there is |
| Gvnic.RxQueue.Receive | kvm/gvnic/gve.go:179-207 | with the device running between any two accesses, consumes a packet exactly when the second read finds one; delivers it exactly when the length in its slot at the call shows as much of it as there is, which is so when it was filled in |
| Gvnic.LostPacketRun | kvm/gvnic/gve.go:187-198 | for every packet and every ring on its first lap, the run in which the packet arrives between the two reads: it is consumed and nothing is delivered |
| Gvnic.StaleLengthRun | kvm/gvnic/gve.go:187-206 | for every packet and every ring on a later lap, the run in which the length of the packet one lap before is applied: wrong whenever it shows another number of bytes |
| Gvnic.UnfilledBreaks | kvm/gvnic/gve.go:187-206 | in every state in which the packet at the cursor is not filled in, some packet that arrives between the two reads is consumed and not delivered |
| Gvnic.TxQueue.constructor | kvm/gvnic/queue.go:229-257 | nothing in flight |
| Gvnic.TxQueue.DeviceComplete | kvm/gvnic/gve.go:219-222 | a completion counter that moves forward and never passes head keeps the invariant |
| Gvnic.TxQueue.Transmit | kvm/gvnic/gve.go:210-246 | with the device running between any two accesses, queues a frame exactly when it fits a page and ring and page list had room at the read of the counter; for every frame in flight the descriptor in its slot has type and offsets zero, one segment and the length of the frame, and the bytes at its segment address are the frame |
| Gvnic.TxQueue.CopyFrame | kvm/gvnic/gve.go:228-229 | the copy uses a page of no frame in flight |
| Gvnic.QueuedOthers | kvm/gvnic/gve.go:228-229 | copying into another page leaves what a queued descriptor sends as it is |
| Gvnic.TxQueue.QueueFrame | kvm/gvnic/gve.go:231-243 | the descriptor is written to a slot of no frame in flight and sends exactly the frame just copied; the device is told the new head |
| VirtioLayout.QueueBytes | kvm/virtio/queue.go:220-240 | descriptor table, available ring and used ring are at the returned offsets, the device area on a page |
| VirtioLayout.DescriptorRead | kvm/virtio/queue.go:43-52 | what a device reads in entry i of the table: the 64-bit address at 0, the length at 8, the flags at 12 and the next index at 14 |
| VirtioLayout.IndexWrite | kvm/virtio/queue.go:117-122 | the index write changes exactly the index field of the serialisation |
| VirtioLayout.RingWrite | kvm/virtio/queue.go:133-138 | the ring write changes exactly one entry |
| VirtioLayout.AvailableRead | kvm/virtio/queue.go:101-130 | a device reads flags at 0, index at 2, entry n at 4 + 2n and the event index behind the ring |
| VirtioLayout.LengthWrite | kvm/virtio/queue.go:340-342 | the length write changes exactly one descriptor's length |
| VirtioLayout.OffsetsExact | kvm/virtio/queue.go:341 | no 16-bit offset wraps exactly for queues of at most 4096 descriptors |
| Virtio.TakeKeeps | kvm/virtio/queue.go:264-267 | taking an available entry moves its descriptor to the device and keeps every descriptor in one place |
| Virtio.ReturnKeeps | kvm/virtio/queue.go:312-316 | returning a held descriptor keeps every descriptor in one place |
| Virtio.PopKeeps | kvm/virtio/queue.go:323-328 | popping reposts the descriptor in a slot no entry still to be taken uses |
| Virtio.EntryKeeps | kvm/virtio/queue.go:325 | the ring entry written before the index advances is not offered yet, so every descriptor stays in one place |
| Virtio.UsedReturned | kvm/virtio/queue.go:194-199 | the used ring in memory lists the unread completions after another one |
| Virtio.PopReads | kvm/virtio/queue.go:312-317 | the driver sees a completion exactly when one is unread, and sees the oldest, across 16-bit wrap |
| Virtio.SlotsExact | kvm/virtio/queue.go:316 | the slot of a 16-bit index is the slot of the unbounded count exactly for power-of-two sizes |
| Virtio.PopProtocol | kvm/virtio/queue.go:312-330 | a pop keeps the protocol |
| Virtio.TakeProtocol | kvm/virtio/queue.go:264-267 | a take keeps the protocol |
| Virtio.ReturnProtocol | kvm/virtio/queue.go:194-199 | a return keeps the protocol |
| Virtio.VirtualQueue.constructor | kvm/virtio/queue.go:243-282 | memory equals the serialised fields, and a device reads from it slice i of one reservation for descriptor i; the driver area follows the table and the device area the driver area, on the next page; a receive queue starts with every descriptor posted, another with none |
| Virtio.InitialRead | kvm/virtio/queue.go:251-262 | in the table of a new queue a device reads for descriptor i the address of slice i of the reservation, the slice length, the flags and no next descriptor |
| Virtio.SlicesApart | kvm/virtio/queue.go:251-255 | slices do not overlap and end inside the reservation |
| Virtio.VirtualQueue.SetRingIndex | kvm/virtio/queue.go:133-138 | memory and field agree after the write, all else unchanged |
| Virtio.VirtualQueue.SetIndex | kvm/virtio/queue.go:117-122 | memory and field agree after the write, all else unchanged |
| Virtio.VirtualQueue.RingEntry | kvm/virtio/queue.go:125-130 | the entry read from memory is the field |
| Virtio.VirtualQueue.SetLength | kvm/virtio/queue.go:340-344 | memory and field agree after the length write |
| Virtio.VirtualQueue.Push | kvm/virtio/queue.go:334-348 | offers the next ring entry's descriptor with the new length and data; memory still equals the fields |
| Virtio.VirtualQueue.Offer | kvm/virtio/queue.go:325-328 | the popped descriptor is offered again, in memory and fields |
| Virtio.VirtualQueue.Pop | kvm/virtio/queue.go:308-331 | empty, too small or popped exactly by the used index at 2 and the length at 8 + 8n of the used ring; the descriptor numbered at 4 + 8n is offered again; memory still equals the fields |
| Virtio.VirtualQueue.Receive | kvm/virtio/queue.go:308-331 | with a conforming device running between any two accesses completions are delivered once each, in order; one that does not fit stays |
| Virtio.VirtualQueue.ReceiveByPop | kvm/virtio/queue.go:308-331 | a call of Pop that the device does not interrupt delivers as a run of Receive does |
| Virtio.VirtualQueue.UsedEntry | kvm/virtio/queue.go:316-317 | the entry read from memory is the oldest unread completion |
| Virtio.VirtualQueue.WriteEntry | kvm/virtio/queue.go:325 | writing the ring entry keeps the protocol before the index offers it |
| Virtio.VirtualQueue.WriteIndex | kvm/virtio/queue.go:326-328 | advancing the index keeps the protocol with the descriptor offered again |
| Virtio.VirtualQueue.DeviceTake | kvm/virtio/queue.go:264-267 | a device that takes entries the index in memory offers keeps the protocol |
| Virtio.VirtualQueue.DeviceReturn | kvm/virtio/queue.go:186-199 | a device that returns held descriptors in any order, writing number, length and index where the driver reads them, keeps the protocol |
| Adma.ChainOf | soc/microchip/sdhci/adma.go:37-55 | the chain tiles the buffer with pieces of 65532 bytes and a last one of 1 to 65532, the end flag only on the last, and has the predicted table size |
| Adma.ChainAttributes | soc/microchip/sdhci/adma.go:41-48 | every descriptor is valid with the transfer action, the last one and no other has the end bit, and no other bit is set |
| Adma.TableSizeLeast | soc/microchip/sdhci/adma.go:71-73 | eight bytes for each of the fewest pieces of at most 65532 bytes that make up the buffer |
| Adma.InitChain | soc/microchip/sdhci/adma.go:37-55 | the loop builds that chain |
| Adma.Table | soc/microchip/sdhci/adma.go:58-84 | the encoded chain, of exactly the predicted size |
| Adma.FetchTable | soc/microchip/sdhci/adma.go:58-69 | a controller walking the encoded table, obeying valid, action and end attributes, finds exactly the chain |
| Adma.TableTransfers | soc/microchip/sdhci/adma.go:75-84 | it then sends exactly the bytes of the buffer, and receives exactly into it |
| SdhciPlan.DmaBlockLimit | soc/microchip/sdhci/sdhci.go:424-439 | the largest block count whose data and table fit the region |
| SdhciPlan.LimitExact | soc/microchip/sdhci/sdhci.go:424-439 | a count is within the limit exactly when its data, its table and twice 15 bytes of padding fit; no block fits exactly in a region below 550 bytes |
| SdhciPlan.UpToLimitFits | soc/microchip/sdhci/sdhci.go:424-439 | every count up to the limit fits |
| SdhciPlan.DataFits | soc/microchip/sdhci/sdhci.go:636 | in an empty region the data reservation succeeds within 15 bytes of the start |
| SdhciPlan.TableFits | soc/microchip/sdhci/sdhci.go:644 | and then the descriptor reservation succeeds |
| SdhciPlan.NextBlocks | soc/microchip/sdhci/sdhci.go:558-564 | a command is not empty, within the request and the limit; a write that is not the last ends on a 16 KiB boundary fewer than 64 blocks short of the limit; other commands take all that is left or the whole limit |
| SdhciPlan.CoveringAppend | soc/microchip/sdhci/sdhci.go:557-582 | appending the command the loop computes for what is left keeps the commands covering the request |
| SdhciPlan.CoveringOrder | soc/microchip/sdhci/sdhci.go:557-582 | commands that cover a request start at its first block, follow each other without gap or overlap within the limit and end at its last block; all writes but the last end on a 16 KiB boundary |
| Sdhci.CleanR1Exactly | soc/microchip/sdhci/cmd.go:347-353 | a status passes exactly when none of the seventeen error bits of a card status is set |
| Sdhci.StateBits | soc/microchip/sdhci/cmd.go:322 | the transfer state is bit 8 set and bits 12 to 9 equal to 0100 |
| Sdhci.SwitchArgument | soc/microchip/sdhci/mmc.go:100-107 | access 11 in the top byte, then register and value, each in its byte |
| Sdhci.SDHCI.RunCommand | soc/microchip/sdhci/cmd.go:85-145 | success means this command with this argument was issued and completed with the returned status and tolerated errors; a failure is logged as issued or not, with the reset of the command line, and of the data line exactly for commands that use it |
| Sdhci.SDHCI.WaitState | soc/microchip/sdhci/cmd.go:307-339 | succeeds exactly when the last poll is a clean CMD13 response for card 1 in the transfer state; otherwise no poll saw the state and the log shows what went wrong |
| Sdhci.SDHCI.InvalidateTransfer | soc/microchip/sdhci/cmd.go:257-266 | both readiness flags are cleared and both lines reset |
| Sdhci.SDHCI.AbortCard | soc/microchip/sdhci/cmd.go:278-300 | CMD12 first; busy is awaited exactly when no data line error was tolerated; success means a clean CMD12 and then the data-line reset |
| Sdhci.SDHCI.StopTransmission | soc/microchip/sdhci/cmd.go:278-305 | CMD12 is tried first; the flags survive exactly with a clean CMD12, the data-line reset and the transfer state all seen since, in this order, with no data command after |
| Sdhci.SDHCI.Prepare | soc/microchip/sdhci/sdhci.go:636-646 | data and table are in disjoint reservations exactly when the region has room for both; otherwise the region is as it was, with the release of the data block logged if it was the table that failed; an empty region has room up to the limit |
| Sdhci.SDHCI.Program | soc/microchip/sdhci/sdhci.go:648-671 | table address, block size and count, direction and, for more than one block, the count sent by CMD23 |
| Sdhci.SDHCI.Exchange | soc/microchip/sdhci/sdhci.go:673-739 | succeeds exactly when this command with this argument completed cleanly and so did its transfer; then the card moved the blocks from the argument on, as many as the registers say, to or from where the table in memory says; otherwise the log shows what went wrong, the driver is settled, and it tried CMD12 for a multiple-block command that was issued |
| Sdhci.SDHCI.IssueData | soc/microchip/sdhci/sdhci.go:695-733 | the command and the wait for its transfer, with what was issued and the first error in the log |
| Sdhci.SDHCI.Move | soc/microchip/sdhci/sdhci.go:648-671 | the registers and the table in memory decide which bytes move and in which direction |
| Sdhci.SDHCI.ReleaseBoth | soc/microchip/sdhci/sdhci.go:637-645 | both reservations are given back, descriptors first |
| Sdhci.SDHCI.TransferDMA | soc/microchip/sdhci/sdhci.go:635-740 | panics exactly when the region has no room; the region is as before on every exit and the releases come last; success exactly when the command, 17 or 24 for one block, 18 or 25 for more, was sent with the block address and completed; then the data moved, and otherwise the driver is settled |
| Sdhci.SDHCI.RunTransfer | soc/microchip/sdhci/sdhci.go:648-739 | succeeds exactly when the given command with the block address as argument completed; then exactly the buffer moved at that address, and otherwise the driver is settled |
| Sdhci.SDHCI.TransferChunk | soc/microchip/sdhci/sdhci.go:566-578 | one command with the block address and, for a write, the wait for programming |
| Sdhci.SDHCI.TransferStep | soc/microchip/sdhci/sdhci.go:557-582 | one pass of the loop extends what was written or read so far |
| Sdhci.LoggedAppend | soc/microchip/sdhci/sdhci.go:568 | one more command completed keeps the data commands in the log those of the plan, in order and no others |
| Sdhci.SDHCI.ValidateTransfer | soc/microchip/sdhci/sdhci.go:527-543 | a request is accepted exactly when the driver is ready and the request is aligned, non-empty and inside the card; the refusals say which part failed |
| Sdhci.SDHCI.TransferLoop | soc/microchip/sdhci/sdhci.go:557-584 | the commands cover the request in order and together update or read the flat card; the data commands in the log are exactly these, each with its block address |
| Sdhci.SDHCI.TransferBlocks | soc/microchip/sdhci/sdhci.go:545-598 | refusals change nothing; success is one update or slice of a flat array, by data commands that are, in the log and in order, those that cover the request, each with its block address and the index for one or for several blocks; an error changes nothing outside the request and leaves the driver settled, with the recovery after the last data command |
| Sdhci.SDHCI.Read | soc/microchip/sdhci/sdhci.go:601-620 | refused exactly when not ready or out of range; a successful read at any offset is the slice of the flat array; an empty region never panics |
| Sdhci.SDHCI.Init | soc/microchip/sdhci/sdhci.go:443-525 | succeeds exactly when configuration and hardware are fine, the region ends by 4 GiB and has at least 550 bytes; the controller is ready exactly on success, nothing is known of a card, and the block limit is that of the region |
| Sdhci.EndAcceptedExactly | soc/microchip/sdhci/sdhci.go:467-469 | the check admits exactly the regions below 4 GiB and those that end with the address space |
| Sdhci.SDHCI.WriteCardRegister | soc/microchip/sdhci/mmc.go:99-123 | succeeds exactly when CMD6 for this register and value completed cleanly and the transfer state was seen after; busy was awaited in between; no other register changes; a failure is in the log |
| Sdhci.SDHCI.ReadExtCSD | soc/microchip/sdhci/mmc.go:338-345 | the register contents, read by CMD8 with argument 0, an error that gives up the controller, or a panic exactly when the region has no room |
| Sdhci.SDHCI.SelectCard | soc/microchip/sdhci/mmc.go:221-265 | success means CMD2, CMD3 and CMD7 for address 1, the switch to an 8-bit bus and the 25 MHz clock, in this order; a failure is in the log |
| Sdhci.SDHCI.DetectCapabilities | soc/microchip/sdhci/mmc.go:125-147 | capacity, cache state, cache size and device type are the fields of the register; a failure is a failed read, which is in the log, or a card without sectors |
| Sdhci.SDHCI.InitMMC | soc/microchip/sdhci/mmc.go:221-276 | ends as the replies and the room of the region at each register read say; success means the card was selected, capacity and cache fields are those of the register, and the faster modes are on exactly where card and host support them |
| Sdhci.SDHCI.EnableFastModes | soc/microchip/sdhci/mmc.go:149-219 | success means high-speed timing exactly where card and host support it, after the switch of register 185 and a change to 50 MHz, and dual data rate exactly where both support that too; a panic exactly when the verifying read finds no room, which needs another user of the region |
| Sdhci.SDHCI.EnableDDR | soc/microchip/sdhci/mmc.go:180-219 | the switch to dual data rate comes before the verifying read; success means that the register read back says so; a failure is in the log or in the register |
| Sdhci.SDHCI.VoltageValidation | soc/microchip/sdhci/mmc.go:73-97 | success means that the last event is a CMD1 answer that shows power-up and sector mode; a failure is in the log: an error, a deadline or a card without sector mode |
| Sdhci.SDHCI.PowerUp | soc/microchip/sdhci/mmc.go:299-310 | CMD0 with argument 0, then the above |
| Sdhci.SDHCI.BringUp | soc/microchip/sdhci/mmc.go:299-312 | power-up and initialisation end as the replies and the room of the region say |
| Sdhci.SDHCI.Detect | soc/microchip/sdhci/mmc.go:279-313 | ends as the replies and the room of the region at each register read say, other users of the region running in between; success means CMD0, power-up, selection and bus width are in the log in this order and capacity, cache and modes are those of the register; a failure has its reason in the log or in the register; ready exactly on success or panic; a panic at the first read leaves a driver that refuses every transfer, one at the second a driver with capacity in high-speed mode without dual data rate; an error gives up the controller and forgets the card |
| Sdhci.ReadyMeansDetected | soc/microchip/sdhci/mmc.go:290-297 | over all replies of card and controller, ready means success exactly when the region has room for both register reads |
| Sdhci.DetectWithoutRoom | soc/microchip/sdhci/mmc.go:279-313 | with a region all in use no run succeeds, and the driver is ready exactly when the run panicked |
| Sdhci.SDHCI.ExtCSD | soc/microchip/sdhci/mmc.go:327-336 | the register contents of a ready driver, or an error that gives up the controller |
| Sdhci.SDHCI.EnableCache | soc/microchip/sdhci/mmc.go:351-382 | success means the requested state, with the completed register writes in order when it changed; a failed register write gives up the controller |
| Sdhci.SDHCI.Sync | soc/microchip/sdhci/mmc.go:385-406 | success means the transfer state was just seen, after a completed flush exactly when the cache is on; an error gives up the controller and is in the log |
| Devcpu.StripAppend | soc/microchip/devcpu/port.go:185-202 | stalls can be anywhere without changing the information of the stream |
| Devcpu.MarkerForm | soc/microchip/devcpu/const.go:30-37 | the eight markers are the words with 0x80 in the low 24 bits and a code below eight in the top byte; the code of an end marker is its number of unused bytes |
| Devcpu.WordDigits | soc/microchip/devcpu/port.go:251-257 | words are stored least significant byte first |
| Devcpu.ParseEncoded | soc/microchip/devcpu/port.go:225-321 | parsing an encoded frame gives its data, its unused count and what follows it |
| Devcpu.PassedCount | soc/microchip/devcpu/port.go:225-260 | a parse that does not run past the end marker of a frame never finds more words than were sent, and finds fewer once a not-ready value was among them |
| Devcpu.ExtractionRoundTrip | soc/microchip/devcpu/port.go:185-321 | for every frame and every stream carrying it with stalls anywhere, the frame comes back exactly when no header or data word is the not-ready value |
| Devcpu.ReceivedBytes | soc/microchip/devcpu/port.go:314-319 | byte j of word i of the data is at 4i + j of the buffer, least significant first, as far as the buffer goes; the rest of the buffer is as it was |
| Devcpu.Port.Read | soc/microchip/devcpu/port.go:185-202 | the next word that is not a stall, or a counted timeout with the stream unchanged; without stalls ahead only an empty stream times out |
| Devcpu.Port.Receive1 | soc/microchip/devcpu/port.go:225-260 | the next item of the stream and its counter, or a timeout; without stalls ahead only a starved stream times out |
| Devcpu.Port.SkipHeader | soc/microchip/devcpu/port.go:274-285 | the header words are skipped, or the reported and counted error is the one of the parse |
| Devcpu.Port.ReceiveBody | soc/microchip/devcpu/port.go:287-320 | result, counter, buffer and consumed words are those of the parsed body |
| Devcpu.Port.Receive | soc/microchip/devcpu/port.go:263-321 | without a timeout, and always when no stall lies ahead, result and buffer are those of the parsed frame and exactly its words are consumed, oversized or not; the stream stands where the parse stopped after a broken frame too, and after a timeout the words consumed are an unfinished frame; exactly the counter of the result moves |
| Devcpu.Port.ReceiveFrame | soc/microchip/devcpu/port.go:263-321 | every frame on the wire without the not-ready value, unless a stall times out: its words are consumed exactly, byte j of data word i arrives at 4i + j and nothing behind the data changes; it is received with its length when it fits the buffer, oversized when not, empty or invalid when the unused count takes all of the data or more, and exactly the counter for that moves |
| Digest.AbsorbAppend | soc/nxp/caam/hash.go:24-33 | absorbing whole blocks in two requests is absorbing them in one |
| Digest.RunIsAbsorb | soc/nxp/caam/hash.go:24-33 | well-formed requests leave the engine as one pass over their data would |
| Digest.StreamingIsOneShot | soc/nxp/caam/sha.go:106-126 | the engine's digest over well-formed requests is the one-shot hash of their data |
| Digest.OneBlock | soc/nxp/caam/sha.go:78-84 | the reference hash on one block and on less: one step of the chaining function for each 64 bytes, the rest to the finalisation |
| Digest.Digest.constructor | soc/nxp/caam/sha.go:141-156 | an empty message, holding the lock |
| Digest.Digest.Process | soc/nxp/caam/sha.go:78-84 | a whole-block request with the initialise flag exactly on the first keeps the requests well formed |
| Digest.Digest.Write | soc/nxp/caam/sha.go:59-101 | appends to the message; less than a block in all is only buffered, without an error; otherwise one block is handed to the engine, and of more than another block behind it all whole blocks; refused after the sum; an error is never forgotten |
| Digest.Digest.Sum | soc/nxp/caam/sha.go:106-126 | the argument followed by the sum; without an error this is the one-shot hash of everything written, however it was split, also when asked again; the first call gives up the own lock, and a call after a failed one is fatal without a holder and otherwise gives up the lock of another digest |
| Digest.New256 | soc/nxp/caam/sha.go:141-156 | refused exactly while the lock is held |
| Digest.OneDigest | soc/nxp/caam/sha.go:135-137 | at most one digest of a channel has not been ended, as long as no failed digest is summed again |
| Digest.SumTwiceRun | soc/nxp/caam/sha.go:106-126 | the run that breaks this: after a failed Sum is repeated, two digests are in use |
| Mailbox.TagSizeExact | soc/bcm2835/mailbox.go:93 | a tag takes its header and its data padded to a word |
| Mailbox.OffsetGrows | soc/bcm2835/mailbox.go:110-118 | tags do not overlap |
| Mailbox.MessageSize | soc/bcm2835/mailbox.go:90-96 | the size loop gives the two header words, every tag padded to words, and the terminator |
| Mailbox.OffsetIsPadded | soc/bcm2835/mailbox.go:109-121 | the encode loop reaches every tag where the sizes before it say, and ends at the precomputed size |
| Mailbox.Encode | soc/bcm2835/mailbox.go:90-121 | size and request code in the header, every tag with its zero third word and the terminator at their offsets, in an enlarged buffer too |
| Mailbox.RequestBytes | soc/bcm2835/mailbox.go:110-116 | a request tag is in memory as identifier, length, zero and data, little-endian |
| Mailbox.Decode | soc/bcm2835/mailbox.go:125-150 | the loop decodes the tags of any buffer, or panics as the source does |
| Mailbox.DecodeReads | soc/bcm2835/mailbox.go:129-150 | for every buffer, tags that are there, each behind the other, are decoded so up to an end, and a broken tag behind them is a panic |
| Mailbox.SomeReading | soc/bcm2835/mailbox.go:129-150 | every buffer consists of some tags and then an end or a broken tag |
| Mailbox.DecodeExactly | soc/bcm2835/mailbox.go:129-150 | so decoding gives exactly the tags in front of the end, and panics exactly when a tag behind some others has its header cut off or is longer than the rest of the buffer |
| Mailbox.TagsAtRead | soc/bcm2835/mailbox.go:129-150 | tags that are in the buffer in full, with identifiers that are not zero, are such tags |
| Mailbox.DecodeSuffix | soc/bcm2835/mailbox.go:129-150 | decoding from any tag on gives the remaining tags |
| Mailbox.DecodeStops | soc/bcm2835/mailbox.go:133-136 | a zero identifier ends the list there |
| Mailbox.RoundTrip | soc/bcm2835/mailbox.go:89-151 | an unchanged message decodes to the same tags exactly when no identifier is zero |
| Mailbox.Exchange | soc/bcm2835/mailbox.go:153-184 | sends the address with the channel in its low four bits; refuses an address exactly when it is not 16-byte aligned, and a response exactly when it is not the word that was sent |
| Mailbox.Call | soc/bcm2835/mailbox.go:89-151 | the alignment panic never happens and the buffer, unless at address zero, is given back on every exit; the reply is the answer as far as it goes and behind it the request; code and tags are those of the reply, and the decoder panics exactly when the reply has a broken tag; a response that is not the word sent is refused; an echoed message comes back as sent exactly when no identifier is zero |

## Left out

- Mmu.MmuMap.ConfigureMMU: takes flags whose descriptor type is not the table type, because a table type makes the 2 MB entry link whatever lies at the physical address, and takes ranges that end within the 39-bit space.
- Mmu.MmuMap.Init: takes region bounds of at most 48 bits with the text start not above the text end, which is what the linker gives.
- Dma.Region.Reserve: takes sizes that are not negative, and `Dma.NegativeSize` says which blocks the code would take for the others; `uint` has 64 bits, 32-bit platforms are not modelled; buffer contents (`Read`, `Write`, `slice`) are not modelled.
- Dma.Region.constructor: takes a region that does not wrap around the address space.
- Gvnic.TxQueue.constructor: takes ring and page counts that divide the counter range; `Gvnic.SlotReuse` shows that other counts reuse slots in flight.
- Gvnic.RxQueue.constructor: takes power-of-two rings and at least as many pages as ring slots, which the driver does not check; descriptors are records, not big-endian bytes.
- Gvnic.TxQueue.Transmit: descriptors are records, not big-endian bytes.
- Virtio.VirtualQueue.Push: does not promise that the slot is free, because the driver does not check it.
- Virtio.VirtualQueue.constructor: takes power-of-two sizes of at most 4096 descriptors; `Virtio.SlotsExact` and `VirtioLayout.OffsetsExact` show that others break the indices and offsets.
- Sdhci.SDHCI.Init: the checks of the configuration other than those on the region, and clock and register programming, are two arguments.
- Sdhci.SDHCI.SetClock: the divider is not modelled, a change of clock succeeds or fails.
- Sdhci.SDHCI.TransferChunk: after a write whose programming state was never left the target blocks are arbitrary.
- Sdhci.SDHCI.PollStatus: deadlines and interrupt waits are an arbitrary outcome.
- Sdhci.SDHCI.Detect: other users of the region run between the register reads only; in all other calls they do not run.
- Sdhci.SDHCI.Read: the allocation of the block buffer always succeeds unless its size overflows.
- Sdhci.SDHCI.constructor: takes a region that does not end with the address space, which `Init` would accept (`Sdhci.EndAcceptedExactly`).
- Devcpu.Port.Receive: the transmit direction is not modelled.
- Digest.Digest.Sum: after a hardware error the engine gives any digest.
- Mailbox.Call: takes a region shorter than 4 GiB less 16 bytes, because the size of a longer tag wraps to zero; what the VideoCore writes and the word it responds with are arguments, and waiting for the mailbox is not modelled.
- The hash function, the AES and elliptic curve engines, and SEV messages are not modelled.
- arm/mmu.go and amd64/mmu.go build coarser tables by the same idea.
- soc/nxp/dcp/sha.go and soc/nxp/enet/dma.go repeat the buffering and the ring of the modelled files.
- UART, GPIO, watchdog, PHY, I2C, SPI, clock and board packages are straight-line register programming.
- Cache and TLB maintenance, memory barriers, goroutine scheduling, interrupts and wall-clock time.
