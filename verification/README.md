# Verified model of the XDMA driver and of the FPGA matrix offload

This project models four parts of the repository in Dafny and proves what each of them is for.
`dafny verify dfyconfig.toml` checks all of it.

**The scatter-gather DMA path.** A read or write on a character device is cut into chunks of at most
8 MiB, each chunk into page fragments, the fragments are merged into hardware descriptors, the
descriptors are linked, terminated and labelled with prefetch hints, queued, and executed by the card.
The main theorem, `Requests.ReadWrite`, says that an accepted request is a byte-for-byte memcpy between
the caller's virtual memory, seen through any page table, and card memory. The stages are separate:
the page split (`ScatterGather`), the merging (`TransferBuild`), the descriptor chain and the two ways
of walking it (`Descriptors`, `DescriptorChain`), memory and the byte loop (`DmaMemory`), building one
transfer (`Transfers`), and whole requests (`Requests`). `Alignment` shows that the alignment that is
checked once per request holds in every descriptor.

`QueuedRequests` goes beyond a request that has the engine to itself: in every interleaving of arrivals and
completions on one engine, the memory is what the completed requests make of it, each a memcpy, in the
order they arrived.

A request that has the engine to itself may also meet a hardware error, in any of its transfers and after
any number of descriptors, and `Requests.ReadWrite` says what it then returns.

**The transfer queue** (`EngineQueue`): submission, start and service of an engine, with the invariant
that holds whenever the engine lock is free, and the accounting of completed descriptors.

**The receive ring with credits.** `RxRing` is the driver code (following the hardware, claiming,
copying), `RxProtocol` the same code cut into steps and interleaved with the hardware in every possible
way, `CyclicChain` the descriptor ring that ties hardware positions to ring blocks, and `ResultBuffer` the bytes
that the results of the hardware are written to and read from. The lemmas
`RxProtocol.ScanIsRun`, `ClaimIsRun`, `CopyIsRun` and `CompleteCyclicIsRun` show that the functions the
code is proved against are runs of these steps, failed copies included.

**Tiled matrix products** (`Matrices`, `HostReference`, `FpgaDevice`, `TiledOffload`) and the time
arithmetic beside them (`Timespec`). Every offload and its CPU reference are proved against one
definition of the product, for all dimensions, so all of them agree.

## What was found

- The mask 0xf0ff, which a comment in the code doubts (`xdma-core.c:2095`), keeps the counter nibble.
  It matters to the hardware's adjacency field only if descriptors carry a counter, which they do not.
- When `copy_to_user` fails, its positive number of missing bytes is returned as if it were a length, so the
  credits are given back and the data is gone. As long as the results claimed are well formed,
  `RxProtocol.DeliveredIffNoFailedCopy` proves that everything credited was delivered if and only if no copy
  failed; `FailedCopyLosesData` is a run in which a byte is lost.
- A malformed result makes `complete_cyclic` return an error without giving back the credits of that
  call. `RxProtocol.CreditsConserved` proves that no credit is missing if and only if every result the
  reader is done with was well formed; `MalformedResultLosesCredit` is a run in which one is missing.
- The comment in `timespec_div` says that the summation cannot exceed a billion, and
  `Timespec.SummationBelowBillion` proves it for every time. The result need not be normalized, though:
  a negative time can leave negative nanoseconds. `Timespec.DividedByNormal` gives the exact condition,
  and `NegativeQuotientNotNormal` an input that does not meet it.
- Service does not always leave the queue as it should be. `EngineQueue.Engine.Service` proves that the
  invariant survives a call if and only if there was no hardware error, and the engine was not found busy or
  the call leaves a transfer queued. `BusyCallFailsLiveTransfer` is a run in which a busy engine's only
  transfer is taken off as FAILED and the engine runs on with an empty queue; `ErrorRestartsFailedTransfer`
  is one in which a failed transfer stays queued and the engine is started with it again.

## Assumptions

- The hardware executes descriptors in the order it fetches them, fetches `1 + adjacent` contiguous ones
  at a time, and stops after a STOPPED one. It interrupts after a descriptor with the COMPLETED bit, and on
  an error, which it reports with the number of descriptors completed. In credit mode it spends one credit
  per result and adds up the credits written. Each result it writes has a nonzero status.
- `pci_map_sg` yields one bus entry per fragment and keeps the offset in the page; the page table is the
  same for the whole request. `pci_alloc_consistent` returns a page-aligned address.
- A section under `engine->lock` is not interrupted by another one. The hardware and the unlocked copy
  to the user are not so protected.
- A request transfers to or from card memory, so its engine is on a memory-mapped channel. On a streaming
  channel the code is the same, but there is no memory at the position for `Requests.ReadWrite` to speak of.
- A call of `copy_to_user` that fails has written all bytes but the number it returns.
- The matrix device leaves the product in the first SIZE words of its memory when the op code register
  stops reading as 0x5555, and leaves the matrix region alone. SIZE is any positive number.
- Floats are exact reals and doubles are exact rationals.

## Model

| member | source | states |
|---|---|---|
| Requests.ReadWrite | pcie_dma_driver/driver/xdma-core.c:3384-3443 | an accepted request copies exactly what memcpy would between user and card memory, returns the count and advances the position by it; a wrong direction or misalignment returns -EINVAL and changes nothing; a hardware error in its transfer number c returns -EIO, the position advanced by the c transfers of 8 MiB before it |
| QueuedRequests.Run | pcie_dma_driver/driver/xdma-core.c:3285-3366 | for every interleaving of arriving requests and completions, the memory is what the first n requests make of it, each a memcpy, in order of arrival; n follows from the events alone and is the number of completions if and only if these never outnumber the arrivals; it is all of them exactly when the queue is empty |
| QueuedRequests.DoneBalanced | pcie_dma_driver/driver/xdma-core.c:1472-1486 | of a sequence of arrivals and completions, every completion finishes a request if and only if in no prefix there are more completions than arrivals |
| QueuedRequests.Submit | pcie_dma_driver/driver/xdma-core.c:3306-3329 | creating and queueing a request on an idle or working engine keeps this so |
| QueuedRequests.Complete | pcie_dma_driver/driver/xdma-core.c:1472-1486 | executing the chain the engine was started with and servicing its completion makes it one request more, marks that transfer COMPLETED and starts the next |
| Requests.TransferData | pcie_dma_driver/driver/xdma-core.c:3285-3366 | any number of chunks of at most 8 MiB together are one memcpy of the whole buffer, in ceil(count / 8 MiB) transfers of which the last alone is marked as ending the request, with the request's size; the count is returned and the engine is idle again. A hardware error in one of them returns -EIO and creates no transfer after it, though the position has advanced by those before |
| Requests.TransferChunk | pcie_dma_driver/driver/xdma-core.c:3300-3340 | one chunk, created, queued, executed by the card and waited for, is a memcpy of that chunk and leaves its transfer COMPLETED; with a hardware error exactly the descriptors before it were executed, and the transfer is FAILED |
| Requests.TransferMonitor | pcie_dma_driver/driver/xdma-core.c:3254-3283 | polled or by the interrupt, which it cannot do without, servicing the only queued transfer completes it and empties the queue; on a hardware error it stays queued as FAILED; polling gives up at once, changing nothing, if and only if the transfer has 2^24 descriptors or more |
| Requests.ChainIsMemcpy | pcie_dma_driver/driver/xdma-core.c:2841-3034 | executing the chain built for a buffer has the effect of the byte loop over the page table |
| DmaMemory.MemcpyToCard | pcie_dma_driver/driver/xdma-core.c:2224-2249 | what the byte loop means toward the card: bytes pos to pos+n-1 receive their buffer bytes, all others and the host keep theirs |
| DmaMemory.MemcpyToHost | pcie_dma_driver/driver/xdma-core.c:2224-2249 | what it means toward the host: every byte of the buffer not aliased by a later one receives its card byte |
| DmaMemory.MemcpyToHostFrame | pcie_dma_driver/driver/xdma-core.c:2224-2249 | no host byte outside the buffer changes |
| DmaMemory.DistinctFramesNoAlias | pcie_dma_driver/driver/xdma-sgm.c:164-216 | if distinct pages have distinct frames, no byte of the buffer is aliased |
| DmaMemory.MemcpySplit | pcie_dma_driver/driver/xdma-core.c:3354-3360 | copying a buffer in two consecutive pieces is copying it at once |
| DmaMemory.ExecBlocks | pcie_dma_driver/driver/xdma-core.c:2224-2249 | executing descriptors in order moves the concatenated bytes of the blocks they carry |
| Transfers.TransferCreate | pcie_dma_driver/driver/xdma-core.c:2942-3034 | for every non-empty buffer the result is a terminated chain at a page-aligned address that moves the coalesced blocks of its fragments, with at most one descriptor per page and less than 2^18 bytes in each; the last control word is 0xAD4B0013 and the others have a zero low byte |
| Transfers.BlocksExact | pcie_dma_driver/driver/xdma-core.c:2841-2940 | whatever was merged, the blocks flatten to the bytes of the buffer in order, at consecutive card addresses |
| Transfers.SplitExact | pcie_dma_driver/driver/xdma-sgm.c:171-216 | the fragments flatten to the bytes start to start+count-1 in order, for every page table |
| Transfers.Terminate | pcie_dma_driver/driver/xdma-core.c:3006-3028 | terminating and labelling turns the allocated list into a chain that stops at its last built descriptor, without changing what any descriptor moves; the last control word is 0xAD4B0013 (stop, end of packet, interrupt), the others have a zero low byte |
| ScatterGather.SgMapper.GetUserPages | pcie_dma_driver/driver/xdma-sgm.c:102-226 | exactly when each error is returned; otherwise the table holds the page split of the buffer |
| ScatterGather.SgMapper.KernelPages | pcie_dma_driver/driver/xdma-sgm.c:261-360 | the same for a vmalloc buffer: the split if and only if every page is found |
| ScatterGather.SgMapper.FillTable | pcie_dma_driver/driver/xdma-sgm.c:171-216 | the filled table is the page split; the two BUG_ONs on the remaining count are asserted and never fire |
| ScatterGather.FragmentShape | pcie_dma_driver/driver/xdma-sgm.c:171-216 | fragments are non-empty, lie inside one page each, meet end to end and end with the buffer |
| ScatterGather.CapacitySuffices | pcie_dma_driver/driver/xdma-sgm.c:50 | max_len / PAGE_SIZE + 2 entries suffice for every buffer of at most max_len bytes, so the capacity check never rejects |
| ScatterGather.PageCountExact | pcie_dma_driver/driver/xdma-sgm.c:107-116 | the wrapping page arithmetic gives the number of pages whenever start + count does not wrap and the count fits an int, and a negative number when it is one of 32 bits that does not fit |
| ScatterGather.ChunkFragments | pcie_dma_driver/driver/xdma-core.c:1587 | a chunk of 8 MiB has at most 2049 fragments, within the 24-bit count of the poll check |
| ScatterGather.SgCreateMapper | pcie_dma_driver/driver/xdma-sgm.c:40-72 | no mapper for zero bytes; otherwise one with the stated capacity and nothing mapped |
| TransferBuild.Build | pcie_dma_driver/driver/xdma-core.c:2841-2940 | descriptors 0 to j are filled with exactly the blocks of the coalescing function, later ones are untouched, and j is below the number of entries |
| TransferBuild.CoalesceMeaning | pcie_dma_driver/driver/xdma-core.c:2859-2939 | coalescing preserves meaning: the blocks flatten to the same bus and card byte pairs as the entries |
| TransferBuild.CoalesceBounds | pcie_dma_driver/driver/xdma-core.c:2881-2886 | with entries of at most a page every descriptor moves less than 2^18 bytes, the cap of the header |
| TransferBuild.CoalesceMaximal | pcie_dma_driver/driver/xdma-core.c:2875-2890 | neighbouring descriptors stay separate only if not contiguous, past the cap, or forced |
| TransferBuild.CoalesceForced | pcie_dma_driver/driver/xdma-core.c:2888-2889 | when forced, every entry gets a descriptor of its own |
| Descriptors.XdmaDescAlloc | pcie_dma_driver/driver/xdma-core.c:2013-2078 | every descriptor of the new array is empty, linked to the next in bus address order, the last to none, with capped adjacency counts |
| Descriptors.MaskAdj | pcie_dma_driver/driver/xdma-core.c:2095-2096 | on every control word, the mask 0xf0ff clears magic and adjacency and keeps counter and flags |
| Descriptors.MergeAdj | pcie_dma_driver/driver/xdma-core.c:2151-2154 | merging magic and adjacency back in gives the control word with these fields |
| Descriptors.MaskFlags | pcie_dma_driver/driver/xdma-core.c:2158-2168 | replacing the low byte changes the flags and nothing else |
| DescriptorChain.LinkWalkVisitsAll | pcie_dma_driver/driver/xdma-core.c:3006-3028 | following next pointers visits the built descriptors once each, in order, and stops, however many were allocated |
| DescriptorChain.OnlyLastStops | pcie_dma_driver/driver/xdma-core.c:2831-2837 | a descriptor of the chain carries STOPPED if and only if it is the last |
| DescriptorChain.ChainedWords | pcie_dma_driver/driver/xdma-core.c:2831-2837 | in raw bits: the last control word of a chain is 0xAD4B0013, and every earlier one is 0xAD4B0000 outside the adjacency field |
| DescriptorChain.ChainInterrupts | pcie_dma_driver/driver/xdma-core.c:2833-2837 | executing a chain meets a descriptor with the COMPLETED bit 0x02, so the interrupt that ends the wait is raised |
| DescriptorChain.PrefetchInChain | pcie_dma_driver/driver/xdma-core.c:2130-2155 | the descriptors announced with a next pointer never pass the last one |
| DescriptorChain.PrefetchInPage | pcie_dma_driver/driver/xdma-core.c:2141-2144 | they never cross a 4 KB boundary (section 2.2.7 of the PCI Express Base Specification) |
| DescriptorChain.PrefetchMaximal | pcie_dma_driver/driver/xdma-core.c:2137-2144 | and they are as many as possible: 15, or all that remain, or one more would cross the 4 KB boundary |
| DescriptorChain.PrefetchAgrees | pcie_dma_driver/driver/xdma-core.c:2130-2155 | fetching contiguous descriptors as announced executes the same sequence as following the links |
| DescriptorChain.FirstFetchInPage | pcie_dma_driver/driver/xdma-core.c:908-915 | the first fetch stays within the array, and the descriptors it reads lie in one page if and only if the first 16, or fewer, end within it; a page-aligned array always does |
| Transfers.FirstFetchOfTransfer | pcie_dma_driver/driver/xdma-core.c:908-915 | for every transfer built, the first fetch stays within its chain and within one page |
| DescriptorChain.RingPrefetchWalk | pcie_dma_driver/driver/xdma-core.c:2120-2127 | in every ring of n, fetching as announced executes descriptor number (start + k) mod n as the k-th |
| Alignment.MaskIsRemainder | pcie_dma_driver/driver/xdma-core.c:3043-3045 | masking with a power of two less one is the remainder |
| Alignment.CheckMeaning | pcie_dma_driver/driver/xdma-core.c:3036-3081 | the check accepts if and only if buffer and position are congruent (incremental), or the buffer, the length and for memory-mapped synchronous requests the position are whole multiples (otherwise) |
| Alignment.DescriptorsAligned | pcie_dma_driver/driver/xdma-core.c:3070-3077 | if an incremental request is accepted, host and card address agree modulo addr_align in every descriptor of every chunk |
| EngineQueue.Engine.constructor | pcie_dma_driver/include/xdma-core.h:434-493 | a new engine is idle, with an empty queue, and satisfies the invariant |
| EngineQueue.Engine.Queue | pcie_dma_driver/driver/xdma-core.c:2334-2387 | keeps the invariant for cyclic and other transfers; refuses while a shutdown is requested, otherwise appends the transfer as SUBMITTED and the engine runs afterwards |
| EngineQueue.Engine.Start | pcie_dma_driver/driver/xdma-core.c:876-931 | the registers name the chain at the head of the queue; its BUG_ONs are preconditions that every caller is shown to meet |
| EngineQueue.Engine.Service | pcie_dma_driver/driver/xdma-core.c:1398-1489 | the invariant, by which the engine runs exactly when transfers are queued and its dequeued count matches the transfers that left, survives a call if and only if there was no hardware error, and the engine was not found busy or a transfer remains queued; with a writeback count the engine runs afterwards exactly when transfers are queued and no shutdown is requested, whatever the BUSY bit; what left the queue moves in order to the history and changes no more, and is COMPLETED if and only if the descriptors since the start of the run up to its last number at most the count reported |
| EngineQueue.BusyCallFailsLiveTransfer | pcie_dma_driver/driver/xdma-core.c:1432-1442 | for every transfer, a run in which service finds the engine busy with it, takes it off as FAILED and leaves the engine running with an empty queue |
| EngineQueue.ErrorRestartsFailedTransfer | pcie_dma_driver/driver/xdma-core.c:1284-1287 | for every transfer and count, a run in which a hardware error leaves the FAILED transfer queued and the engine started with it again |
| EngineQueue.Engine.ServiceTransferList | pcie_dma_driver/driver/xdma-core.c:1198-1238 | removes and completes the transfers passed; what it subtracts plus what it leaves is the count it was given |
| EngineQueue.Engine.ServiceFinalTransfer | pcie_dma_driver/driver/xdma-core.c:1269-1330 | removes the head as COMPLETED iff its descriptors are covered, else FAILED; with a hardware error leaves it queued as FAILED |
| EngineQueue.Engine.ServiceTransfers | pcie_dma_driver/driver/xdma-core.c:1472-1479 | list loop and final transfer remove the shortest covering prefix, each transfer in it COMPLETED iff all its descriptors are among those completed |
| EngineQueue.Engine.Resume | pcie_dma_driver/driver/xdma-core.c:1358-1388 | a stopped engine runs again iff transfers are queued and no shutdown is requested |
| EngineQueue.PassedCovers | pcie_dma_driver/driver/xdma-core.c:1209-1235 | the transfers passed and one more cover the count, the passed ones alone do not, and all passed ones are completed |
| EngineQueue.PassedShortest | pcie_dma_driver/driver/xdma-core.c:1209-1235 | a prefix of the queue covers the count if and only if it is longer than the passed one |
| RxRing.RxEngine.RingProcess | pcie_dma_driver/driver/xdma-core.c:1030-1068 | for arbitrary slot contents the loop ends with the tail, overrun flag and EOP count of the specification function |
| RxRing.ScanMeaning | pcie_dma_driver/driver/xdma-core.c:1044-1065 | what that function computes: the tail passes the longest run of filled slots up to the head, reaching the head is exactly an overrun, and the count is the number of EOPs passed |
| RxRing.ClaimProgress | pcie_dma_driver/driver/xdma-core.c:3545-3593 | each iteration of the claim loop clears a filled slot or is the last, so it ends even under overrun |
| RxRing.RxEngine.ClaimResults | pcie_dma_driver/driver/xdma-core.c:3538-3595 | for arbitrary slot contents the loop ends in the state of the specification function |
| RxRing.ClaimMeaning | pcie_dma_driver/driver/xdma-core.c:3545-3593 | what that function computes: it takes the longest run of good results up to the first EOP, malformed result or the tail, clears exactly the slots it read, and adds up lengths and credits |
| RxRing.ClaimStepWords | pcie_dma_driver/driver/xdma-core.c:3562-3581 | one iteration in the raw words of its slot: a fault if and only if the upper half of the status is not 0x52B4 or the length is 0 or more than 4096; otherwise the packet ends if and only if bit 0 of the status is set, and length and credit are counted |
| RxRing.ClaimCounts | pcie_dma_driver/driver/xdma-core.c:3572-3574 | between 1 and 4096 bytes are claimed per credit |
| RxRing.RxEngine.CopyCyclicToUser | pcie_dma_driver/driver/xdma-core.c:3489-3522 | writes the claimed bytes, block by block around the ring, over the user buffer from its index on and changes nothing else; a failed copy has written all but the bytes it reports, returns that number and advances the index by the whole blocks before it |
| RxRing.RxEngine.CompleteCyclic | pcie_dma_driver/driver/xdma-core.c:3524-3611 | the new ring, user buffer and credits of a call: a fault writes nothing and returns no credits, a failed copy returns them all although only part of the bytes was written |
| RxProtocol.StepInv | pcie_dma_driver/driver/xdma-core.c:3524-3611 | every step of hardware, service and reader keeps the ring invariant |
| RxProtocol.ReachableInv | pcie_dma_driver/driver/xdma-core.c:3995-4078 | so it holds after every interleaving that starts from an empty ring with 128 credits |
| RxProtocol.CreditsBounded | pcie_dma_driver/driver/xdma-core.c:4056-4064 | in every reachable state, credits with the hardware and results not yet credited back are at most 128, and rx_overrun is never set |
| RxProtocol.CreditsConserved | pcie_dma_driver/driver/xdma-core.c:3597-3607 | in every reachable state no credit is missing if and only if every result the reader is done with was well formed |
| RxProtocol.MalformedResultLosesCredit | pcie_dma_driver/driver/xdma-core.c:3562-3598 | a run with one empty result, after which one of the 128 credits is gone for good |
| RxProtocol.FillIsSafe | pcie_dma_driver/driver/xdma-core.c:3583-3607 | whatever the reader is doing, the hardware only ever fills an empty slot, and no block of a result whose credits the reader has not given back or given up |
| RxProtocol.CopyIsSafe | pcie_dma_driver/driver/xdma-core.c:3504-3519 | while the reader copies without the lock, the hardware fills none of the blocks still to be copied |
| RxProtocol.ServiceSeesAll | pcie_dma_driver/driver/xdma-core.c:1044-1065 | in every reachable state the service loop is at its end if and only if the tail has passed all results written |
| RxProtocol.DeliversPrefix | pcie_dma_driver/driver/xdma-core.c:3504-3519 | while the results claimed are well formed and no copy fails, the bytes delivered are a prefix of the bytes written, across any wrap-around and whatever was written later |
| RxProtocol.DeliveredIffNoFailedCopy | pcie_dma_driver/driver/xdma-core.c:3601-3607 | between calls, if the results claimed were well formed, the credited ones have all been delivered if and only if no copy ever failed |
| RxProtocol.PacketDelivered | pcie_dma_driver/driver/xdma-core.c:3545-3607 | for every full block followed by a last one, of any length, of the same packet, a run that delivers both and ends with all 128 credits back |
| RxProtocol.FailedCopyLosesData | pcie_dma_driver/driver/xdma-core.c:3510-3514 | a run with one well-formed byte whose copy fails: its credit is back, and nothing was delivered |
| RxProtocol.CallStopsAtEop | pcie_dma_driver/driver/xdma-core.c:3575-3593 | a call, claiming, copying or at fault, claims nothing after the first EOP |
| RxProtocol.ScanIsRun | pcie_dma_driver/driver/xdma-core.c:1044-1065 | the service loop is a run of service steps |
| RxProtocol.CopyIsRun | pcie_dma_driver/driver/xdma-core.c:3489-3522 | copying is a run of copied blocks, ended by a copy fault exactly when a call of copy_to_user fails |
| RxProtocol.CompleteCyclicIsRun | pcie_dma_driver/driver/xdma-core.c:3524-3611 | with no other step in between, a call of complete_cyclic, whether its copies succeed or fail, is a run of reader steps with the effect proved of the method |
| CyclicChain.CyclicTransferSetup | pcie_dma_driver/driver/xdma-core.c:4024-4051 | 256 descriptors in a ring, the k-th for ring block k and for the result 32k bytes into the result buffer, each with EOP and COMPLETED set and STOPPED clear (low byte 0x12), with prefetch hints, the first fetch included, that leave neither the ring nor a 4 KB page |
| CyclicChain.InnerHint | pcie_dma_driver/driver/xdma-core.c:2130-2155 | the hint written for a terminated chain also suits the ring made of it: what it announces ends before the ring does and inside one 4 KB page |
| CyclicChain.SetResultAddresses | pcie_dma_driver/driver/xdma-core.c:2258-2269 | descriptor k gets the address of result slot k as its source and keeps everything else |
| CyclicChain.ReportInSlot | pcie_dma_driver/driver/xdma-core.c:2258-2269 | eight words written to where the k-th descriptor of the ring reports are read as result k, and change no byte but 32k to 32k + 31 of the result buffer, hence no other result |
| ResultBuffer.ReportAt | pcie_dma_driver/include/xdma-core.h:403-407 | the layout of the result buffer: status and length are the first two of eight little-endian words, and writing those of result k changes bytes 32k to 32k + 31 only |
| CyclicChain.SetAllControl | pcie_dma_driver/driver/xdma-core.c:2271-2280 | every descriptor has exactly the given flags and keeps everything else |
| CyclicChain.BlocksArePages | pcie_dma_driver/driver/xdma-core.c:4024-4025 | the ring buffer yields 256 descriptors, one whole page each |
| CyclicChain.FetchAgreesWithRing | pcie_dma_driver/driver/xdma-core.c:2120-2127 | for every k, the k-th descriptor executed, following links or fetching as announced, serves block and slot k mod 256 and does not stop the engine |
| HostReference.MatTransposeNaive | host_code/utils.c:79-88 | the output is the transpose, for all dimensions, and nothing beyond it changes |
| HostReference.CpuMatvec | host_code/utils.c:115-137 | the reference computes the matrix-vector product |
| HostReference.CpuMatmul | host_code/utils.c:140-163 | the reference computes the matrix product |
| HostReference.MatMulAgree | host_code/utils.c:140-163 | any two buffers that hold the product of the same matrices are equal, so both tilings agree with the reference and with each other |
| FpgaDevice.Fpga.Matvec | host_code/fpga_offload.c:181-210 | trigger and polling through the shared memory give the SIZE by SIZE matrix-vector product |
| FpgaDevice.Fpga.Matmul | host_code/fpga_offload.c:265-308 | row k of the output is row k of the first matrix times the second, for every k |
| FpgaDevice.LoadRow | host_code/fpga_offload.c:280-296 | the transposed matrix written once survives a round of writing a row and computing |
| TiledOffload.LargeMatvecNaive | host_code/fpga_offload.c:314-417 | for all row and column counts the output is the matrix-vector product and nothing outside it changes |
| TiledOffload.FillMatrixTile | host_code/fpga_offload.c:338-374 | the tile buffer holds the tile padded with zeros, whatever it held before |
| TiledOffload.PaddedDot | host_code/fpga_offload.c:361-391 | the padding contributes nothing to a matrix-vector tile |
| TiledOffload.TileAdds | host_code/fpga_offload.c:393-399 | accumulating one tile extends the partial inner products by its columns |
| TiledOffload.LargeMatmulNaive | host_code/fpga_offload.c:423-456 | transposing, multiplying column by column and transposing back is the matrix product, for all dimensions, and nothing beyond it changes |
| TiledOffload.ColumnDot | host_code/fpga_offload.c:440-445 | a row of the transposed second matrix gives a column of the product |
| TiledOffload.LargeMatmulNaive2 | host_code/fpga_offload.c:462-550 | the tiled product is the matrix product, for all dimensions, and nothing beyond it changes |
| TiledOffload.PaddedProduct | host_code/fpga_offload.c:499-528 | the padding contributes nothing to a matrix-matrix tile |
| TiledOffload.ProductTile | host_code/fpga_offload.c:496-535 | the tiles over k add up to the full inner products of one output tile |
| TiledOffload.StoreTile | host_code/fpga_offload.c:537-540 | storing a tile writes its cells and no cell of any other tile |
| Timespec.PlusMinus | host_code/utils.c:21-57 | addition and subtraction keep the normal form, are exact in nanoseconds and undo each other |
| Timespec.DividedByClose | host_code/utils.c:65-75 | dividing a non-negative time gives a normalized time at most 1 ns below the rounded-down quotient |
| Timespec.DividedByNormal | host_code/utils.c:65-75 | for every time and divisor, the quotient is normalized if and only if the time is non-negative, no seconds remain, or their share in whole nanoseconds equals the nanosecond quotient |
| Timespec.SummationBelowBillion | host_code/utils.c:74 | for every normalized time, negative ones included, the nanoseconds of the result stay below a billion, and above minus a billion |
| Timespec.NegativeDividedClose | host_code/utils.c:65-75 | dividing a negative time gives a total less than 1 ns away from the exact quotient |
| Timespec.NegativeQuotientNotNormal | host_code/utils.c:74 | minus one second divided by two is not normalized |
| Timespec.Timespec.Add | host_code/utils.c:43-57 | adds in place, keeping the normal form |
| Timespec.Timespec.Sub | host_code/utils.c:21-35 | subtracts in place, keeping the normal form |
| Timespec.Timespec.Div | host_code/utils.c:65-75 | divides in place, leaving less than a billion nanoseconds; a non-negative time gives a normalized result at most 1 ns below the quotient, a negative one a result less than 1 ns off |

## Left out

- Requests.ReadWrite: incremental addressing, and a request that has an engine without errors to itself (`QueuedRequests` has the others); the buffer must not wrap the address space and the position must stay within loff_t. What card memory holds after a hardware error is stated chunk by chunk in `Requests.TransferChunk` alone.
- QueuedRequests.Run: requests of one chunk each, incremental addressing, hardware without errors; completions are serviced one at a time.
- Requests.TransferMonitor: the wait itself, signals and timeouts; the hardware has completed the transfer, or met an error in it, when it is serviced. An error is met before the last descriptor is done.
- EngineQueue.Engine.ServiceFinalTransfer: of the status register, BUSY and whether any error bit is set.
- Transfers.TransferCreate: allocation failures and pages that cannot be had (the code stops in a BUG_ON), and buffers of 2^31 pages or more.
- ScatterGather.SgCreateMapper: allocation failures; max_pages is an int in the code and unbounded here.
- EngineQueue.Engine.Service: counts beyond what is queued and calls for a running engine with an empty queue (both end in a BUG_ON), calls after one that broke the invariant, and performance counters; an engine with a cyclic transfer is served by another routine.
- EngineQueue.Engine.Queue: transfers are never chained to the one before (CHAIN_MULTIPLE_TRANSFERS is 0), so chaining is not modelled.
- RxProtocol.DeliversPrefix: one reader, credit mode only; recovery from an overrun without credits.
- Timespec.Timespec.Div: rounding of the double; overflow of the seconds.
- TiledOffload.LargeMatmulNaive2: float rounding (tiling reassociates sums), overflow of the 32-bit indices, timing; the buffer clearing after the last tile of the matrix-vector offload, which nothing reads.
- The retry loops `transfer_monitor_cyclic` and `char_sgdma_read_cyclic`: retry counters and flags with no clean promise.
- Asynchronous I/O and non-incremental requests of several chunks: the position is not advanced, or advanced although the address is fixed, so the memcpy claim does not apply.
- Character-device, PCI, BAR, interrupt and sysfs set-up, performance tests, bypass devices, and the bitstream and ioctl files that are compiled out.
- `fpga_matvec_verbose`, which reads a result address of another hardware build, and the inner-product offload.
