# Verified model of the ACAI FPGA DMA path

The project models how a buffer of a guest user process reaches an FPGA and back. The
guest's stub driver pins the buffer and cuts it into page chunks, uploads the chunks
through a shared escape page, and asks for a DMA. The host manager translates guest frame
numbers to addresses of the emulator process, the XDMA driver turns them into a scatter
list, compiles that into a ring of hardware descriptors and hands transfers to an engine
with a queue and a shutdown protocol. Around this path stand the page-table edits that map
the escape page, the address index with its save files, and the delegation of memory
granules.

The meaning of a DMA is a sequence of single-byte moves (`Dma.dfy`); each stage is proved to
keep it, and `EndToEnd.ReadWrite` composes the stages.

| file | what it models |
|---|---|
| `Words.dfy`, `Masks.dfy`, `Codes.dfy`, `Dma.dfy` | machine words, masks, the numbers of errors, turns, requests and statuses, byte moves and the reference meaning of a request |
| `Descriptors.dfy`, `Requests.dfy`, `Rings.dfy`, `RingSlots.dfy`, `Submit.dfy` | the descriptor compiler, the hardware that runs it, and the submit loop |
| `Aperture.dfy`, `AperturePasses.dfy`, `ApertureRequests.dfy`, `ApertureBuild.dfy`, `ApertureSubmit.dfy` | the aperture variant: cutting into the window, passes, whole requests, the ring and the submit loop |
| `Engine.dfy`, `Shutdown.dfy`, `XdmaEngine.dfy`, `Submitters.dfy`, `LinkedChains.dfy`, `Verdicts.dfy` | the engine's critical sections, as state functions and as an object, all their interleavings, alone and with descriptor memory, and what a submitter finds |
| `PageTable.dfy`, `Remap.dfy` | the page-table walk, PTE edits, and mapping a region into the host |
| `AddrMap.dfy`, `EmptyMappings.dfy`, `HexText.dfy`, `Settings.dfy`, `ManagerContext.dfy` | the address index, the paged query for its holes, and its save files |
| `PageChunks.dfy`, `EscapeHost.dfy`, `EscapePage.dfy` | the escape protocol |
| `PinnedPages.dfy`, `RemoteSgl.dfy`, `EndToEnd.dfy` | both drivers' ends and the whole path |
| `Granules.dfy` | range merging |

Check the project with `dafny verify dfyconfig.toml`.

## How the code is read

- Bus addresses, lengths and counters wrap where the C types do (`Wrap32`, `Wrap64`); index
  and control-word masks are written as arithmetic on the fields they select.
- `pci_map_sg` is the identity on entries. Foreign calls (memory allocation, `get_user_pages`,
  the status registers, how a wait ends) are parameters.
- A critical section of `engine->lock` is one atomic step, and so is posting a request on the
  escape page. A wait is a nondeterministic wake-up or timeout.
- The hardware is an interpreter that follows next pointers until the STOPPED flag; a second
  interpreter fetches ahead by the announced counts.

Where the code does something else than its surroundings suggest, the model follows the code:

- `desc_used` keeps the descriptors of a transfer that `transfer_queue` rejects (`Submit.SubmitResult`).
- A zero completion count leaves a stopped engine with a non-empty queue (`Engine.RunningIffQueued`).
- The descriptor estimate of `xdma_init_request` wraps for entries near 2^32 bytes, and the check
  against it comes after the writes (`Requests.ShortfallExact`, `Requests.InitRequest`).
- A timeout whose engine id register is unreadable frees a linked transfer and clears its descriptors
  (`Submitters.UnreadableIdFreesLinked`, `LinkedChains.UnreadableIdClearsLinked`).
- The 64-bit address sums of `xdma_xfer_aperture` wrap for windows close to 2^64, where descriptors
  then leave the window (`Aperture.PieceIff`, `Aperture.HighWindowOverruns`).
- `xdma_xfer_aperture` restarts at the first entry on later passes, masks the offset with
  aperture - 1, and can reach a pass without descriptors (`AperturePasses.LaterPassRightIff`,
  `ApertureRequests.RequestRightIff`, `ApertureRequests.ThirdPassUnderflows`).
- The clean-up loop of `fh_mmap_region` never runs (`Remap.HostTables.MmapRegion`, `Remap.FailedUnchangedIff`).
- `fh_memory_map` does not check the target page: without a PTE the host page gets frame 0 and the
  call returns 0 (`Remap.SharedIff`, `Remap.AbsentTargetGetsFrameZero`).
- The address index admits `pfn_max`, one past its table, and the greatest scanned frame lands
  there (`AddrMaps.MapMemory`), so that its address is not saved (`ManagerContexts.SaveThenRestore`).
- UNMAP falls through into DMA (`EscapeHost.UnmapAnsweredIff`).
- `last_pfn` of the paged query is a 32-bit field (`EmptyMappings.QueryExactIff`), and the loop
  counter of the granule count an unsigned int (`Granules.CountEndsIff`).
- A page lookup that returns 0 without a page ends `map_remote_pages_to_sgl` with 0
  (`RemoteSgl.MapRemotePages`).
- `target_pid` is read with `%lx` into a 32-bit field; the overrun hits `target_from`, which the
  next line restores (`Settings.SettingsRoundTrip`).
- The driver's byte count passes through an `int`, so a complete transfer of 2^31 bytes or more is
  reported as a failure although every byte was copied (`EndToEnd.ReadWrite`).

## Model

| member | source | states |
|---|---|---|
| `Dma.DeviceAfterWrite` | src/fpga_driver/xdma/linux-kernel/xdma/libxdma.c:2378-2398 | running the reference meaning of a write on any two memories puts host byte k at ep + k for every k of the request and leaves every other device byte as it was |
| `Dma.HostAfterRead` | src/fpga_driver/xdma/linux-kernel/xdma/libxdma.c:2378-2398 | running the reference meaning of a read puts device byte ep + k at host byte k, the last one winning where a host byte is named twice, and leaves every other host byte as it was |
| `Descriptors.ControlWordFields` | src/fpga_driver/xdma/linux-kernel/xdma/libxdma.c:2328-2353 | packing an adjacent count below 64 into the control word keeps the magic and the STOPPED/EOP/COMPLETED bits, and the count reads back unchanged |
| `Masks.OrBits` | src/fpga_driver/xdma/linux-kernel/xdma/libxdma.c:2340-2353 | the or of the control word works bit by bit |
| `Descriptors.NextAdjMaximal` | src/fpga_driver/xdma/linux-kernel/xdma/libxdma.c:647-663 | the announced block stays inside the transfer, inside one aligned block of 64 descriptors and so in one 4 KB page, and no longer block does |
| `Descriptors.AdjacencySoundAndMaximal` | src/fpga_driver/xdma/linux-kernel/xdma/libxdma.c:3022-3029 | every descriptor of a compiled chain carries, as read back from its control word, the longest count that is sound in the sense above |
| `Descriptors.ChainRuns` | src/fpga_driver/xdma/linux-kernel/xdma/libxdma.c:2261-2287 | an engine that follows next pointers from the first descriptor of a compiled chain performs every hop, in order, and halts on the STOPPED flag |
| `Descriptors.PrefetchRefinesRun` | src/fpga_driver/xdma/linux-kernel/xdma/libxdma.c:743-752 | an engine that fetches ahead by first_desc_adjacent and the announced counts never fetches a descriptor the pointers would not reach: its run equals the pointer-following run |
| `Descriptors.IncrementalHops` | src/fpga_driver/xdma/linux-kernel/xdma/libxdma.c:2918-2954 | in incremental mode the hops of a transfer mean exactly: byte k of its software descriptors to or from ep + k |
| `Requests.SplitAllKeepsBytes` | src/fpga_driver/xdma/linux-kernel/xdma/libxdma.c:3118-3135 | cutting a scatter list at any positive desc_blen_max keeps the flat list of host bytes and leaves only non-empty pieces within the limit |
| `Requests.EstimateSuffices` | src/fpga_driver/xdma/linux-kernel/xdma/libxdma.c:3101-3110 | no shortfall when the 32-bit rounding sum of no entry wraps |
| `Requests.EntryEstimateIff` | src/fpga_driver/xdma/linux-kernel/xdma/libxdma.c:3104-3105 | for one entry the estimate is enough if and only if the entry is not split or its 32-bit rounding sum does not wrap |
| `Requests.ShortfallExact` | src/fpga_driver/xdma/linux-kernel/xdma/libxdma.c:3101-3135 | for a list, the pieces exceed the estimate by exactly the sum of the entries' shortfalls, given by their lengths alone |
| `Requests.EstimateWraps` | src/fpga_driver/xdma/linux-kernel/xdma/libxdma.c:3104-3105 | a member of the failing family: one entry of 2^32 - 1 bytes needs 17 descriptors with the default limit, the estimate allows 1 |
| `Requests.CountExtra` | src/fpga_driver/xdma/linux-kernel/xdma/libxdma.c:3101-3106 | the counting loop computes the 32-bit estimate |
| `Requests.AppendPieces` | src/fpga_driver/xdma/linux-kernel/xdma/libxdma.c:3123-3134 | the inner loop appends exactly the pieces of one entry |
| `Requests.InitRequest` | src/fpga_driver/xdma/linux-kernel/xdma/libxdma.c:3092-3148 | fails exactly without memory or when the lengths fall short, and in the latter case only after writing exactly the shortfall of software descriptors behind the allocation; otherwise the request holds all pieces, the 32-bit total and the device address |
| `Rings.TransferSize` | src/fpga_driver/xdma/linux-kernel/xdma/libxdma.c:2957-2992 | a transfer takes min(remaining, slots up to the ring end) descriptors: it never wraps and always makes progress |
| `Rings.PassCount` | src/fpga_driver/xdma/linux-kernel/xdma/libxdma.c:2957-3033 | cnt descriptors from index s of D slots take one transfer if cnt <= D - s, otherwise 1 + ceil((cnt - (D - s)) / D), hence at most two (the size of tfer[]) when cnt <= D |
| `Rings.Ring.DescInit` | src/fpga_driver/xdma/linux-kernel/xdma/libxdma.c:2261-2287 | links exactly n slots by bus address and terminates the last, touching no other slot |
| `Rings.Ring.Build` | src/fpga_driver/xdma/linux-kernel/xdma/libxdma.c:2918-2954 | fills the n descriptors with the next software descriptors and the advancing device address, and advances the request by them |
| `Rings.Ring.SetAdjacent` | src/fpga_driver/xdma/linux-kernel/xdma/libxdma.c:3022-3029 | announcing the adjacent counts completes the chain and touches no other slot |
| `Rings.Ring.Compile` | src/fpga_driver/xdma/linux-kernel/xdma/libxdma.c:2994-3029 | the descriptor writes of transfer_init leave a complete chain for the next part of the request in consecutive slots, and nothing else in the ring changes |
| `Rings.Ring.TransferInit` | src/fpga_driver/xdma/linux-kernel/xdma/libxdma.c:2957-3033 | the transfer, the chain, the ring index, desc_used and the request after transfer_init |
| `Rings.Ring.Destroy` | src/fpga_driver/xdma/linux-kernel/xdma/libxdma.c:2902-2916 | clears exactly the slots of the transfer |
| `RingSlots.DisjointIffUsedFits` | src/fpga_driver/xdma/linux-kernel/xdma/libxdma.c:2957-3033 | over every run without a rejected transfer, the live transfers occupy disjoint slots if and only if desc_used <= D |
| `RingSlots.DisjointWhileUsedFits` | src/fpga_driver/xdma/linux-kernel/xdma/libxdma.c:3019-3020 | over every run, rejected transfers included, the live transfers occupy disjoint slots while desc_used <= D |
| `RingSlots.UsedAccount` | src/fpga_driver/xdma/linux-kernel/xdma/libxdma.c:3563-3568 | desc_used is the slots of the live transfers plus those of every transfer ever rejected |
| `RingSlots.RejectionOvercounts` | src/fpga_driver/xdma/linux-kernel/xdma/libxdma.c:3563-3568 | after a rejection desc_used can exceed D although nothing overlaps: the converse needs runs without one |
| `RingSlots.RunsStayConsecutive` | src/fpga_driver/xdma/linux-kernel/xdma/libxdma.c:2981-3020 | over every run no transfer wraps and each starts where the one before it ended, rejected ones included, and desc_used covers them |
| `Submit.SubmitResult` | src/fpga_driver/xdma/linux-kernel/xdma/libxdma.c:3534-3671 | the result counts the transfers before the first one not completed: never more than their bytes, and exactly their bytes if and only if each is below 2^32 bytes; the hardware has moved those bytes and otherwise only bytes of the transfer that did not complete; desc_used stays charged if and only if transfer_queue rejected |
| `Submit.StopExact` | src/fpga_driver/xdma/linux-kernel/xdma/libxdma.c:3563-3647 | the first transfer that does not complete decides the error code (-EBUSY, -EIO or -ERESTARTSYS) and how many bytes were moved: those before it and as many of its own as the hardware had moved |
| `Submit.EndsRight` | src/fpga_driver/xdma/linux-kernel/xdma/libxdma.c:3448-3672 | the same for a whole request: the error code of a first transfer, the bytes of the completed ones otherwise, and the exact number of bytes moved |
| `Submit.PrefixCopied` | src/fpga_driver/xdma/linux-kernel/xdma/libxdma.c:3534-3671 | the bytes the hardware moved are the first bytes of the scatter list, at least as many as the result counts, all of them when every transfer completes |
| `Submit.OnePass` | src/fpga_driver/xdma/linux-kernel/xdma/libxdma.c:3538-3647 | one transfer: the hardware performs the moves of its software descriptors, all of them if it completes and a first part if it fails or times out; the slots are given back unless the queue rejected it |
| `Submit.Turn` | src/fpga_driver/xdma/linux-kernel/xdma/libxdma.c:3534-3659 | one turn of the submit loop keeps the exact account of bytes counted, descriptors covered and bytes copied |
| `Submit.SubmitLoop` | src/fpga_driver/xdma/linux-kernel/xdma/libxdma.c:3534-3659 | the loop terminates with the tally of the reference recursion and the first moves of the request, whatever the verdict on each transfer |
| `Submit.XferSubmit` | src/fpga_driver/xdma/linux-kernel/xdma/libxdma.c:3448-3672 | all error returns; for any list, ring size, start index and positive desc_blen_max, and whatever happens to the transfers, the bytes copied are the first bytes of the scatter list, byte k to or from ep + k and nothing else, at least `ret` of them and all of them when every transfer completes; a first transfer that does not complete gives -EBUSY when rejected, -EIO when failed and -ERESTARTSYS when timed out, and behind completed ones the result is their bytes |
| `Verdicts.ServiceVerdict` | src/fpga_driver/xdma/linux-kernel/xdma/libxdma.c:1098-1204 | a service call that sees a count retires the submitter's transfer, and it is found completed exactly when the count passes its descriptors or equals them without an error |
| `Verdicts.CompletedMeansAllDone` | src/fpga_driver/xdma/linux-kernel/xdma/libxdma.c:3583-3606 | over every interleaving of submitters, with hardware that reports its progress in the register or written back, a completed verdict means that all descriptors are done without an error |
| `Verdicts.ZeroCountTimesOut` | src/fpga_driver/xdma/linux-kernel/xdma/libxdma.c:3618-3643 | a zero count leaves the transfer SUBMITTED, which the submitter treats as a timeout |
| `Engine.ServiceListContract` | src/fpga_driver/xdma/linux-kernel/xdma/libxdma.c:827-884 | the list loop retires as COMPLETED exactly the transfers whose descriptors end before the count, as a prefix of the queue, and what it takes off the count it adds to desc_dequeued |
| `Engine.FinalShape` | src/fpga_driver/xdma/linux-kernel/xdma/libxdma.c:916-1022 | the final transfer leaves the head of the queue, COMPLETED if the count reaches it without a status error and FAILED otherwise; an error stops the engine and dequeues nothing |
| `Engine.ServiceContract` | src/fpga_driver/xdma/linux-kernel/xdma/libxdma.c:1098-1204 | a service call that sees a non-zero count (written back, else from the register) removes a prefix of the queue up to the position where the count ends, all COMPLETED except possibly the last, credits no more descriptors than reported minus desc_dequeued, and ends running if and only if transfers are queued: restarted with nothing dequeued after an idle status, a write-back or an error, otherwise with the retired descriptors dequeued |
| `Engine.RunningIffQueued` | src/fpga_driver/xdma/linux-kernel/xdma/libxdma.c:1159-1160 | running-iff-queued survives a service call exactly when the count is not zero or the busy bit agrees with the queue; a zero count changes no transfer |
| `Engine.ServiceControl` | src/fpga_driver/xdma/linux-kernel/xdma/libxdma.c:1054-1088 | a service call entered without a shutdown request sets neither shutdown bit: the IDLE branch is not reached |
| `Engine.ServiceKeepsWellFormed` | src/fpga_driver/xdma/linux-kernel/xdma/libxdma.c:1098-1204 | a service call keeps the queue free of duplicates and of dangling entries |
| `XdmaEngineObject.XdmaEngine.EngineStart` | src/fpga_driver/xdma/linux-kernel/xdma/libxdma.c:681-776 | starts only a stopped engine with a non-empty queue: running, both shutdown bits clear, desc_dequeued 0; otherwise nothing changes |
| `XdmaEngineObject.XdmaEngine.ServiceTransferList` | src/fpga_driver/xdma/linux-kernel/xdma/libxdma.c:827-884 | the mutating loop computes the reference recursion on queue, transfers and remaining count |
| `XdmaEngineObject.XdmaEngine.ServiceFinalTransfer` | src/fpga_driver/xdma/linux-kernel/xdma/libxdma.c:916-1022 | the mutating form of the final transfer, case by case on the fields: state, completed count, desc_dequeued and the running flag |
| `XdmaEngineObject.XdmaEngine.ServiceResume` | src/fpga_driver/xdma/linux-kernel/xdma/libxdma.c:1054-1088 | the mutating form of resume on the fields: running if and only if transfers are queued, restarted with nothing dequeued, stopped, or the request acknowledged |
| `XdmaEngineObject.XdmaEngine.EngineService` | src/fpga_driver/xdma/linux-kernel/xdma/libxdma.c:1098-1204 | the whole service call equals the state function; -1 exactly when a running engine was told of an error |
| `XdmaEngineObject.XdmaEngine.TransferQueue` | src/fpga_driver/xdma/linux-kernel/xdma/libxdma.c:2447-2524 | all rejections leave the engine as it was; an accepted transfer is SUBMITTED at the tail of the list and the engine runs, started with nothing dequeued if it was stopped |
| `XdmaEngineObject.XdmaEngine.AbortAndStop` | src/fpga_driver/xdma/linux-kernel/xdma/libxdma.c:2403-2438 | transfer_abort unlinks only the head and marks only a SUBMITTED transfer, then the engine is stopped; nothing else changes |
| `XdmaEngineObject.XdmaEngine.RunSection` | src/fpga_driver/xdma/linux-kernel/xdma/libxdma.c:2447-2524 | any critical section on the fields is the step of the schedule model |
| `XdmaEngineObject.XdmaEngine.RunSections` | src/fpga_driver/xdma/linux-kernel/xdma/libxdma.c:681-776 | any schedule of critical sections run on the fields reaches the state of the schedule model and keeps: a shutdown request excludes a running engine |
| `XdmaEngineObject.XdmaEngine.OfflineWindow` | src/fpga_driver/xdma/linux-kernel/xdma/libxdma.c:4538-4641 | on the object, after any history and during any sections between offline and online: stopped, request still set, IDLE clear, no start, and the list only loses entries at its front |
| `Shutdown.ShutdownInvariant` | src/fpga_driver/xdma/linux-kernel/xdma/libxdma.c:681-776 | over every interleaving of submitters, service calls, timeouts, offline and online: a shutdown request excludes a running engine, and the IDLE bit is never set |
| `Shutdown.NothingStartsWhileShuttingDown` | src/fpga_driver/xdma/linux-kernel/xdma/libxdma.c:2447-2524 | while the request is set, over every interleaving without online: engine_start is never entered, the engine stays stopped, the request is not erased and no transfer joins the queue |
| `Shutdown.ShutdownWindow` | src/fpga_driver/xdma/linux-kernel/xdma/libxdma.c:4538-4641 | the same from the section in which offline sets the request, after any history, until online |
| `Submitters.SubmittersSafe` | src/fpga_driver/xdma/linux-kernel/xdma/libxdma.c:3532-3668 | over every interleaving of synchronous submitters, completions, failures and timeouts in which the engine id can be read at the wake-ups of still linked transfers: a transfer is SUBMITTED exactly while linked, at most one is linked, and neither transfer_init nor xdma_request_free meets a linked transfer |
| `Submitters.UnreadableWakeIff` | src/fpga_driver/xdma/linux-kernel/xdma/libxdma.c:3618-3643 | a wake-up that cannot read the engine id keeps the invariant if and only if its transfer is no longer linked |
| `Submitters.InitiallyOk` | src/fpga_driver/xdma/linux-kernel/xdma/libxdma.c:2447-2524 | the invariants hold of an idle engine without submitters |
| `Submitters.UnreadableIdFreesLinked` | src/fpga_driver/xdma/linux-kernel/xdma/libxdma.c:3618-3643 | in every reachable world with a linked transfer, a timeout whose engine id cannot be read frees the request while it is still linked: the condition on the id is needed |
| `Submitters.LinkedEngineWorksIff` | src/fpga_driver/xdma/linux-kernel/xdma/libxdma.c:3532-3668 | over every such interleaving the engine is running at every moment at which a transfer is linked if and only if no step goes offline, or finds neither a count nor the busy bit, while one is |
| `Submitters.StepWorksIff` | src/fpga_driver/xdma/linux-kernel/xdma/libxdma.c:2501-2507 | every accepted transfer_queue leaves the engine running, and a running engine works on a linked transfer of which nothing is dequeued, until exactly those steps |
| `Submitters.FreshAlways` | src/fpga_driver/xdma/linux-kernel/xdma/libxdma.c:720-727 | over every such interleaving a running engine has a linked transfer and has dequeued nothing of it |
| `Submitters.CompletionsExact` | src/fpga_driver/xdma/linux-kernel/xdma/libxdma.c:3534-3659 | over every interleaving a thread sees no more completed transfers than its request needs, and as many as it no longer needs if and only if none of its transfers is rejected or found not completed |
| `Submitters.LinkedWorldReached` | src/fpga_driver/xdma/linux-kernel/xdma/libxdma.c:3534-3568 | such worlds are reached by the first transfer of any thread |
| `LinkedChains.LinkedChainRuns` | src/fpga_driver/xdma/linux-kernel/xdma/libxdma.c:3532-3668 | over every such interleaving joined with descriptor memory: at every moment the slots of the linked transfer hold the chain transfer_init built, as many descriptors as the service counts, and an engine that fetches them performs exactly its copies and stops |
| `LinkedChains.ChainStep` | src/fpga_driver/xdma/linux-kernel/xdma/libxdma.c:3538-3647 | every step keeps: from transfer_init to transfer_destroy the slots of a transfer hold its chain |
| `LinkedChains.IdleMachine` | src/fpga_driver/xdma/linux-kernel/xdma/libxdma.c:2447-2524 | an idle engine with any ring satisfies that |
| `LinkedChains.UnreadableIdClearsLinked` | src/fpga_driver/xdma/linux-kernel/xdma/libxdma.c:3618-3647 | a wake-up of a linked transfer that cannot read the engine id clears its descriptors while it is linked: an engine that fetches the first one finds no magic number |
| `Aperture.PieceIff` | src/fpga_driver/xdma/linux-kernel/xdma/libxdma.c:3274-3281 | the length and address computed for a descriptor are the longest piece inside the window if and only if neither the address behind the window nor the end of the uncut piece wraps at 2^64 |
| `Aperture.CutRightIff` | src/fpga_driver/xdma/linux-kernel/xdma/libxdma.c:3263-3306 | for every list, position, window and number of free slots: the descriptors place the bytes they carry round and round in the window if and only if no sum wraps for any of their pieces |
| `Aperture.FitsInWindow` | src/fpga_driver/xdma/linux-kernel/xdma/libxdma.c:3274-3290 | then every descriptor lies inside [ep, ep + aperture) |
| `Aperture.CutCarries` | src/fpga_driver/xdma/linux-kernel/xdma/libxdma.c:3263-3306 | whatever the addresses, the descriptors carry the first bytes of the entries in order, and all of them when slots are left |
| `Aperture.HighWindowOverruns` | src/fpga_driver/xdma/linux-kernel/xdma/libxdma.c:3280-3281 | the last four addresses as window and any two entries of three bytes: the second descriptor is not cut and leaves the window |
| `AperturePasses.PassMeaningIff` | src/fpga_driver/xdma/linux-kernel/xdma/libxdma.c:3216-3306 | for any list, resume point, window and number of free slots, and any bytes: a pass copies exactly these bytes from a given place of the round on if and only if it carries them, offset & (aperture - 1) is that place (or there are no bytes) and no sum wraps |
| `AperturePasses.LaterPassRightIff` | src/fpga_driver/xdma/linux-kernel/xdma/libxdma.c:3216-3309 | a pass that resumes at byte sg_offset of entry sg_idx copies the next bytes of what is left, as many as it has descriptors for, if and only if the entries it visits (from the first again) begin with these bytes, the mask is the remainder and no sum wraps |
| `AperturePasses.PassEmptyIff` | src/fpga_driver/xdma/linux-kernel/xdma/libxdma.c:3316-3317 | a pass has no descriptor, so that desc_cnt - 1 underflows, if and only if the entries it visits hold no byte |
| `Masks.MaskIsRemainder` | src/fpga_driver/xdma/linux-kernel/xdma/libxdma.c:3260-3260 | below a power of two the mask is the remainder |
| `Masks.AndBits` | src/fpga_driver/xdma/linux-kernel/xdma/libxdma.c:3260-3260 | the mask works bit by bit |
| `AperturePasses.PowerWindow` | src/fpga_driver/xdma/linux-kernel/xdma/libxdma.c:3260-3260 | with such an aperture every pass starts at the place of the round where the bytes before it ended |
| `ApertureRequests.RequestRightIff` | src/fpga_driver/xdma/linux-kernel/xdma/libxdma.c:3224-3433 | for any list of any length, window, ring and ring index: the passes end and their descriptors copy byte k of the list to or from ep + (k mod aperture), and nothing else, if and only if every pass is right at its place, none is empty, and the list is done when the loop ends |
| `ApertureRequests.CourseRightIff` | src/fpga_driver/xdma/linux-kernel/xdma/libxdma.c:3224-3433 | the same from any resume point with any number of bytes behind it |
| `ApertureRequests.OnePassRightIff` | src/fpga_driver/xdma/linux-kernel/xdma/libxdma.c:3224-3341 | a list that the first pass carries takes no other pass, and is copied right, inside the window, if and only if no sum wraps |
| `ApertureRequests.LowWindowPass` | src/fpga_driver/xdma/linux-kernel/xdma/libxdma.c:3161-3281 | no sum wraps in any pass when the window and one more piece lie below 2^64 |
| `ApertureRequests.StopSplits` | src/fpga_driver/xdma/linux-kernel/xdma/libxdma.c:3263-3309 | what a pass builds and what it leaves are together the bytes of the entries it visits, wherever the ring ends |
| `ApertureRequests.FirstPassLeaves` | src/fpga_driver/xdma/linux-kernel/xdma/libxdma.c:3308-3309 | behind the first pass sg_idx and sg_offset name exactly the bytes that are left of the list |
| `ApertureRequests.PassAdvances` | src/fpga_driver/xdma/linux-kernel/xdma/libxdma.c:3263-3309 | every pass with a free slot gets further in the list or in its first entry, which is why the passes end |
| `ApertureRequests.SecondPassReadsFirstEntry` | src/fpga_driver/xdma/linux-kernel/xdma/libxdma.c:3216-3263 | two entries of one byte at different addresses, the last slot of any ring next, any window: the second pass copies the first entry again |
| `ApertureRequests.SecondPassMissesWindow` | src/fpga_driver/xdma/linux-kernel/xdma/libxdma.c:3260-3260 | equal entries and an aperture of 3: the second pass reads the right bytes but starts at the wrong byte of the window |
| `ApertureRequests.ThirdPassUnderflows` | src/fpga_driver/xdma/linux-kernel/xdma/libxdma.c:3263-3317 | a first entry of one byte, a longer second one and the last slot next: the third pass has no descriptor |
| `ApertureBuild.NextPiece` | src/fpga_driver/xdma/linux-kernel/xdma/libxdma.c:3274-3281 | the inner loop's length and address in 64 bits, the longest piece inside the window where no sum wraps |
| `ApertureBuild.FillEntry` | src/fpga_driver/xdma/linux-kernel/xdma/libxdma.c:3273-3300 | the inner loop adds descriptors of one entry until the entry or the ring ends, and terminates |
| `ApertureBuild.FillPass` | src/fpga_driver/xdma/linux-kernel/xdma/libxdma.c:3259-3309 | the loops build exactly the descriptors of the pass, and leave offset, sg_idx and sg_offset where the next pass starts, also when nothing is built |
| `ApertureBuild.LinkPass` | src/fpga_driver/xdma/linux-kernel/xdma/libxdma.c:3316-3328 | the linking loop links, terminates and flags the pass without disturbing what was filled in |
| `ApertureBuild.BuildPass` | src/fpga_driver/xdma/linux-kernel/xdma/libxdma.c:3235-3341 | a whole pass: its descriptors as a complete chain, the three counters, ring index, desc_used and the transfer; a pass without descriptors is told apart |
| `ApertureSubmit.OnePass` | src/fpga_driver/xdma/linux-kernel/xdma/libxdma.c:3226-3432 | a pass with its verdict: the hardware performs the moves of its descriptors, all or a first part, and the slots are given back unless the queue rejected it |
| `ApertureSubmit.PassLoop` | src/fpga_driver/xdma/linux-kernel/xdma/libxdma.c:3224-3433 | the loop ends; whatever the verdicts, the bytes moved are the first of the request's course, those of the completed passes are counted, and all are moved unless a transfer does not complete |
| `ApertureRequests.CourseOfPasses` | src/fpga_driver/xdma/linux-kernel/xdma/libxdma.c:3226-3432 | the course of a request is its passes one after the other |
| `ApertureSubmit.XferAperture` | src/fpga_driver/xdma/linux-kernel/xdma/libxdma.c:3150-3446 | all error returns; with any number of passes and any verdicts the bytes moved are the first of the course and at least `ret`; a first pass that does not complete gives -EBUSY, -EIO or -ERESTARTSYS, behind completed passes the result is their bytes, and the bytes moved are exact in both cases; if every transfer completes they are the whole course, and the call runs off the ring exactly when the course has an empty pass; if every pass is right the course is byte k to or from ep + (k mod aperture) |
| `PageTable.SlotsSpellAddress` | src/fpga_driver/fh_host/ptedit_header.h:1102-1125 | the four slots of a walk spell the 48-bit address above the page offset, each in the table its upper entry names |
| `PageTable.WalkReaches` | src/fpga_driver/fh_host/ptedit_header.h:1130-1196 | which levels a walk reaches and what it finds there: bit 0 of an entry leads on, bit 7 of the PMD ends the walk at a large page |
| `PageTable.FieldBits` | src/fpga_driver/fh_host/ptedit_header.h:1295-1313 | the pfn is the 40 bits from bit 12 on, and every other bit is a flag |
| `PageTable.SetBits` | src/fpga_driver/fh_host/ptedit_header.h:1295-1303 | setting a pfn below 2^40 keeps the bits above 51 and below 12 |
| `PageTable.SetThenGetPfn` | src/fpga_driver/fh_host/ptedit_header.h:1295-1313 | get after set returns the pfn if and only if it is below 2^40, and then every other bit is kept |
| `PageTable.PteUpdateSeenIff` | src/fpga_driver/fh_host/ptedit_header.h:1226-1268 | a PTE update is seen by the next resolve with all upper levels unchanged if and only if the PTE slot is not an upper slot of its own walk (or nothing changes) |
| `PageTable.PteUpdateFrame` | src/fpga_driver/fh_host/ptedit_header.h:1226-1268 | the walk of every address that does not read the written slot is unchanged |
| `PageTable.UpdateOfResolved` | src/fpga_driver/fh_host/ptedit_header.h:1226-1268 | writing back what resolve found changes nothing, at any level |
| `PageTable.UpdateLeavesOthers` | src/fpga_driver/fh_host/ptedit_header.h:1226-1268 | only slots of levels that are marked and that the walk reached are written |
| `PageTable.WalkFrame` | src/fpga_driver/fh_host/ptedit_header.h:1102-1199 | a write to a slot that a walk does not read changes neither its result nor which upper slots it reads |
| `PageTable.PteSetThenGetPfn` | src/fpga_driver/fh_host/ptedit_header.h:1949-1962 | ptedit_pte_set_pfn then ptedit_pte_get_pfn returns the pfn and keeps the flag bits of the entry |
| `Remap.RegionAt` | src/fpga_driver/fh_host/fh_host.c:289-294 | the pages of a region: consecutive host pages from host_mem, consecutive target pages from the page of the address |
| `Remap.RegionTranslates` | src/fpga_driver/fh_host/fh_host.c:189-240 | after the region is mapped, host page i has the frame of the target's PTE (frame 0 if its walk reaches no PTE), its own flags and upper levels, and the target's walk is unchanged; it is the same memory as target page i if and only if it is present and the target has a present PTE (or is frame 0 of a large page) |
| `Remap.MapThenUnmap` | src/fpga_driver/fh_host/fh_host.c:243-255 | unmapping with the recorded contexts restores page-table memory exactly |
| `Remap.EveryPageFound` | src/fpga_driver/fh_host/fh_host.c:213-225 | without aliasing the check that the PTE was found never fails, and every recorded context is that of the original memory |
| `Remap.HostTables.MemoryMap` | src/fpga_driver/fh_host/fh_host.c:189-240 | one page: redirected with the flags kept, or -1 and nothing written when the slot does not hold the entry found |
| `Remap.HostTables.MmapRegion` | src/fpga_driver/fh_host/fh_host.c:257-324 | maps the pages in turn; on failure the pages before the failing one stay redirected, because the clean-up loop never runs |
| `Remap.HostTables.UnmmapRegion` | src/fpga_driver/fh_host/fh_host.c:243-255 | writes the recorded entries back in order |
| `Remap.MapUseUnmap` | src/fpga_driver/fh_host/fh_host.c:243-324 | without aliasing the mapping returns 0, meanwhile every host page is redirected and shares its target page exactly under that condition, and unmapping restores page-table memory |
| `Remap.MapUseUnmapAt` | src/fpga_driver/fh_host/fh_host.c:243-324 | the same for the region fh_mmap_region is called with |
| `Remap.FailedUnchangedIff` | src/fpga_driver/fh_host/fh_host.c:289-323 | a call that maps k pages and then fails leaves page-table memory as it was if and only if each of those host pages already had the frame it was given |
| `Remap.SharedIff` | src/fpga_driver/fh_host/fh_host.c:201-229 | a redirected host page is the same memory as its target page if and only if it is present and the target has a present PTE (or is frame 0 of a large page) |
| `Remap.LargeFrameBits` | src/fpga_driver/fh_host/ptedit_header.h:1183-1186 | inside a large page the low nine bits of the frame come from the address and the others from the PMD |
| `Remap.AbsentTargetGetsFrameZero` | src/fpga_driver/fh_host/fh_host.c:201-229 | concrete tables without aliasing and an absent target page: the call returns 0 and the host page is physical frame 0 |
| `Remap.FailureLeavesPageRedirected` | src/fpga_driver/fh_host/fh_host.c:316-323 | page tables for which the first page is redirected and the second, in a large page, fails: the call returns -1 with the first PTE changed |
| `Remap.HalfRegionIs` | src/fpga_driver/fh_host/fh_host.c:289-294 | those page tables are met by a call with two pages |
| `PageChunks.LeRoundTrip` | src/fpga_driver/fpga_escape_libhook/fpga_usr_manager.h:174-179 | a field written as little-endian bytes reads back |
| `PageChunks.ChunksRoundTrip` | src/fpga_driver/fpga_escape_libhook/fpga_usr_manager.h:174-179 | an array of page chunks read from its own bytes is the array |
| `PageChunks.ChunkLayout` | src/fpga_driver/fpga_escape_libhook/fpga_usr_manager.h:174-179 | byte j of addr, offset and nbytes of chunk i lies at 24 i + j, 24 i + 8 + j and 24 i + 16 + j |
| `AddrMaps.UnmappedExact` | src/fpga_driver/fpga_escape_libhook/usr_manager.c:198-218 | the reference list holds exactly the frames of the range that answer 0, ascending, each once |
| `AddrMaps.ZeroMeansUntagged` | src/fpga_driver/fpga_escape_libhook/usr_manager.c:536-559 | over a target range that neither starts at 0 nor wraps, the recorded address is 0 exactly when no page carries the frame |
| `AddrMaps.LastPageExists` | src/fpga_driver/fpga_escape_libhook/usr_manager.c:536-559 | every marked frame has a last page that carries it |
| `AddrMaps.FindDimensions` | src/fpga_driver/fpga_escape_libhook/usr_manager.c:495-534 | the least (up to INT64_MAX) and greatest frame number of the scan, attained when any page is marked |
| `AddrMaps.AddrIndex.constructor` | src/fpga_driver/fpga_escape_libhook/usr_manager.c:157-183 | every frame of the range starts unmapped, and pfn_max answers with the word behind the table |
| `AddrMaps.AddrIndex.Get` | src/fpga_driver/fpga_escape_libhook/usr_manager.c:198-218 | reads the entry; out of range is 0, and pfn_max reads the word after the table |
| `AddrMaps.AddrIndex.Set` | src/fpga_driver/fpga_escape_libhook/usr_manager.c:241-259 | writes the entry and nothing else; out of range is ignored, and pfn_max writes the word after the table |
| `AddrMaps.AddrIndex.ScanAddresses` | src/fpga_driver/fpga_escape_libhook/usr_manager.c:536-559 | every frame ends at the address of the last page marked with it: page k of the target is at from + 4096 k |
| `AddrMaps.MapMemory` | src/fpga_driver/fpga_escape_libhook/usr_manager.c:678-708 | after dimensions, table and scan, every frame of a marked page, the greatest included, answers from + 4096 k for the last page k that carries it; a frame below pfn_max is unmapped exactly when no page carries it, while the greatest frame is recorded outside the table; without a marked page the bounds are crossed and there is no table; it fails exactly without memory or with a single frame number up to INT64_MAX, whose table is empty |
| `EscapeHost.HostRunSafe` | src/fpga_driver/fpga_escape_libhook/fpga_comm.c:82-135 | over every message sequence: the received offset never exceeds the announced size, the received prefix is the concatenation of the chunks accepted since the last handshake, every DMA that reaches the device follows a DMA handshake with only accepted chunks in between, and hands over the translated uploaded chunks |
| `EscapeHost.DmaNeedsHandshake` | src/fpga_driver/fpga_escape_libhook/fpga_comm.c:190-279 | between two DMAs that reach the device, and before the first, lies a handshake for a DMA |
| `EscapeHost.UnmapAnsweredIff` | src/fpga_driver/fpga_escape_libhook/fpga_comm.c:444-484 | because UNMAP falls through into DMA, it is answered if and only if an upload for a DMA is pending whose chunks lie inside it and are all mapped and the device agrees, consuming the upload; without such an upload it is refused |
| `EscapeHost.ReadableExact` | src/fpga_driver/fpga_escape_libhook/fpga_comm.c:232-242 | of a block that is too short exactly the chunks whose pfn lies in it are translated |
| `EscapePages.CopyInto` | src/fpga_driver/fpga_escape_libhook/fpga_comm.c:125-127 | memcpy into part of a buffer changes that part and nothing else |
| `EscapePages.Host.constructor` | src/fpga_driver/fpga_escape_libhook/fpga_comm.c:54-57 | a host without an upload |
| `EscapePages.Host.Accept` | src/fpga_driver/fpga_escape_libhook/fpga_comm.c:100-115 | the handshake answers with the chunk size and replaces the upload state, or fails without memory |
| `EscapePages.Host.Receive` | src/fpga_driver/fpga_escape_libhook/fpga_comm.c:117-130 | a chunk is appended to the received prefix or refused, as the state function says |
| `EscapePages.Host.PrepareDma` | src/fpga_driver/fpga_escape_libhook/fpga_comm.c:221-251 | the chunks handed to the device are the decoded upload with every frame translated; a frame without a mapping ends it, also when more chunks are asked for than uploaded, and only otherwise is anything read behind the upload |
| `EscapePages.Host.DoDma` | src/fpga_driver/fpga_escape_libhook/fpga_comm.c:190-279 | do_dma with a given ioctl result equals the state function, result and event log included |
| `EscapePages.Host.OnFault` | src/fpga_driver/fpga_escape_libhook/fpga_comm.c:282-501 | with the turn not at the host nothing changes; otherwise the state function of the request on the page, and the turn goes back exactly when the request was answered |
| `EscapePages.DoFaulthook` | src/fpga_driver/xdma_stub/linux-kernel/xdma/fvp_escape.c:263-286 | 0 exactly when the host answered; -ENXIO when it refused (which ends its listener) or no longer listens |
| `EscapePages.ExtraFaults` | src/fpga_driver/fpga_escape_libhook/fpga_comm.c:288-298 | any number of faults while the turn is the guest's leaves host and page as they are |
| `EscapePages.SendHandshake` | src/fpga_driver/xdma_stub/linux-kernel/xdma/cdev_sgdma.c:79-90 | -ENXIO unless the host listens and finds memory; otherwise an empty block of the announced size and the capacity of a message |
| `EscapePages.SendChunk` | src/fpga_driver/xdma_stub/linux-kernel/xdma/cdev_sgdma.c:96-108 | one data round delivers the next bytes; it fits the mapped buffer and is always accepted |
| `EscapePages.SendAll` | src/fpga_driver/xdma_stub/linux-kernel/xdma/cdev_sgdma.c:92-115 | the loop ends after ceil(size / chunk size) rounds with every byte delivered |
| `EscapePages.TransferChunkToHost` | src/fpga_driver/xdma_stub/linux-kernel/xdma/cdev_sgdma.c:63-116 | for any data below 2^32 bytes, any positive chunk size and extra faults anywhere: 0 with the host's block equal to the data after ceil(size / chunk size) data rounds, or -ENXIO at the handshake; empty data is 0 rounds; the out-of-bounds answer never occurs |
| `EmptyMappings.AnswerQuery` | src/fpga_driver/fpga_escape_libhook/fpga_comm.c:317-351 | a page lists the next unmapped frames from its starting point, as many as fit, and last_pfn (32 bits) says where to go on |
| `EmptyMappings.VerifyMapping` | src/fpga_driver/xdma_stub/linux-kernel/xdma/fvp_escape.c:150-216 | the guest sees the pages one after the other; for pfn_max up to 2^32 and a host that keeps answering they are exactly the unmapped frames of [pfn_min, pfn_max), ascending, each once |
| `EmptyMappings.QueryExactIff` | src/fpga_driver/fpga_escape_libhook/fpga_comm.c:317-351 | for any pfn_max: the pages concatenate to exactly the unmapped frames if and only if every continuation point is below 2^32, or is a multiple of 2^32 with nothing left behind it |
| `EmptyMappings.SmallIsAskable` | src/fpga_driver/fpga_escape_libhook/fpga_comm.c:317-351 | that condition holds for every map with pfn_max up to 2^32 |
| `EmptyMappings.ScanSplits` | src/fpga_driver/fpga_escape_libhook/fpga_comm.c:334-340 | a page and the unmapped frames behind it are the unmapped frames from its start |
| `HexText.ScanPrinted` | src/fpga_driver/fpga_escape_libhook/usr_manager.c:41-52 | a value printed with %lx behind its prefix scans back, whatever non-hexadecimal text follows |
| `HexText.UpperCase` | src/fpga_driver/fpga_escape_libhook/usr_manager.c:350-352 | digits in upper case scan to the same values |
| `HexText.ReadBack` | src/fpga_driver/fpga_escape_libhook/usr_manager.c:43-52 | reading one printed line restores the value and consumes exactly that line |
| `HexText.PairRoundTrip` | src/fpga_driver/fpga_escape_libhook/usr_manager.c:331-354 | a printed mapping line scans back to its key and value |
| `Settings.ChecksumDetects` | src/fpga_driver/fpga_escape_libhook/usr_manager.c:261-274 | a change of any single field changes the settings checksum |
| `Settings.VaddrSumDetects` | src/fpga_driver/fpga_escape_libhook/usr_manager.c:276-286 | a change of any single entry changes the mappings checksum |
| `Settings.SettingsRoundTrip` | src/fpga_driver/fpga_escape_libhook/usr_manager.c:367-418 | reading the printed settings into any context restores all nine fields, with the printed checksum equal to the checksum of what was read |
| `Settings.MappingsRoundTrip` | src/fpga_driver/fpga_escape_libhook/usr_manager.c:339-365 | reading the printed mappings into a zeroed table gives the table back |
| `ManagerContexts.ManagerContext.SumVaddrs` | src/fpga_driver/fpga_escape_libhook/usr_manager.c:276-286 | the 64-bit sum of the table's entries |
| `ManagerContexts.ManagerContext.SaveSettings` | src/fpga_driver/fpga_escape_libhook/usr_manager.c:288-337 | the two files hold the printed settings and one line per non-zero entry |
| `ManagerContexts.ManagerContext.ReadSettings` | src/fpga_driver/fpga_escape_libhook/usr_manager.c:367-418 | all fields as parsed, 0 exactly when the checksum line is the checksum of the fields |
| `ManagerContexts.ManagerContext.ReadMappings` | src/fpga_driver/fpga_escape_libhook/usr_manager.c:339-365 | every line is stored in order, with what a failed scan leaves in the variables; 0 exactly when the entries add up to the saved checksum |
| `ManagerContexts.ManagerContext.Restore` | src/fpga_driver/fpga_escape_libhook/usr_manager.c:581-628 | settings, pid check, fresh table and mappings: the restored context, or -1; an empty table is refused by mmap, and with crossed bounds only the mappings checksum decides |
| `ManagerContexts.SaveThenRestore` | src/fpga_driver/fpga_escape_libhook/usr_manager.c:288-418 | saving a context and restoring it into any other, when mmap finds memory, restores the nine fields and every entry, and both checksums are accepted: every frame answers as before except pfn_max, whose address is not saved and which answers with the word behind the new table |
| `Granules.DelegateRanges` | src/fpga_driver/devmem_intercept/devmem_intercept.c:192-233 | the merged ranges delegate exactly the granules of the entries in the same order: a granule is handed over if and only if it begins a page of an entry that holds one of its bytes, so that every byte is delegated; no two consecutive ranges could have been one |
| `Granules.CountPages` | src/fpga_driver/devmem_intercept/devmem_intercept.c:215-217 | the inner loop counts the pages of an entry: 4096 (n - 1) < length <= 4096 n |
| `Granules.CountEndsIff` | src/fpga_driver/devmem_intercept/devmem_intercept.c:215-217 | the 32-bit loop counter ever reaches the length, so that the loop ends, if and only if the length is at most 2^32 - 4096 |
| `PinnedPages.PageCountCovers` | src/fpga_driver/xdma_stub/linux-kernel/xdma/fvp_escape.c:558-562 | the page count is the number of pages the buffer touches, in spite of 64-bit wrap-around in between |
| `PinnedPages.PinnedBytes` | src/fpga_driver/xdma_stub/linux-kernel/xdma/fvp_escape.c:690-704 | below 2^32 bytes the chunks name exactly the buffer's bytes: byte k is byte (offset + k) mod 4096 of page (offset + k) / 4096 |
| `PinnedPages.LengthCheck` | src/fpga_driver/xdma_stub/linux-kernel/xdma/fvp_escape.c:690-710 | the "Invalid user buffer length" branch is not taken if and only if the buffer is below 2^32 bytes |
| `PinnedPages.FillChunks` | src/fpga_driver/xdma_stub/linux-kernel/xdma/fvp_escape.c:690-704 | the chunk loop computes the reference recursion |
| `PinnedPages.PinPages` | src/fpga_driver/xdma_stub/linux-kernel/xdma/fvp_escape.c:628-722 | succeeds exactly for a non-empty page span, available memory, all pages pinned, no page next to itself and a length below 2^32, and then the chunks name the buffer's bytes; every error code otherwise |
| `RemoteSgl.SglBytes` | src/fpga_driver/xdma/linux-kernel/xdma/cdev_sgdma.c:350-361 | the scatter list names the same bytes as the chunks, in order |
| `RemoteSgl.MapRemotePages` | src/fpga_driver/xdma/linux-kernel/xdma/cdev_sgdma.c:274-371 | every return code: -EINVAL without chunks or when the lengths do not add up, -ENOMEM, the page lookup's own code, -EFAULT for twins, and 0 with an empty scatter list when a lookup returns 0 without a page; on success the scatter list |
| `RemoteSgl.AlignMeans` | src/fpga_driver/xdma/linux-kernel/xdma/cdev_sgdma.c:181-232 | with an alignment and granularity of powers of two the masks compare remainders |
| `RemoteSgl.FillSgl` | src/fpga_driver/xdma/linux-kernel/xdma/cdev_sgdma.c:350-361 | the filling loop computes the scatter list and the 64-bit remainder of len |
| `RemoteSgl.ReadWriteRemote` | src/fpga_driver/xdma/linux-kernel/xdma/cdev_sgdma.c:470-531 | -EINVAL for the wrong direction and for every misaligned request, with nothing copied; a request that is not accepted (memory for the request included) copies nothing; of an accepted one the bytes copied are the first of those its chunks name, at least `ret`, all of them if every transfer completes |
| `EndToEnd.UploadedChunks` | src/fpga_driver/fpga_escape_libhook/fpga_comm.c:221-262 | for a pinned buffer whose frames are mapped: translation succeeds, the translated chunks name the backing bytes, and their lengths add up to the buffer's, so the host's length branch is unreachable |
| `EndToEnd.TranslateAll` | src/fpga_driver/fpga_escape_libhook/fpga_comm.c:232-251 | translation succeeds exactly when every frame is mapped, and changes only the address |
| `EndToEnd.PostDma` | src/fpga_driver/xdma/linux-kernel/xdma/fvp_escape.c:402-453 | the DMA request with the driver behind the ioctl: the chunks handed over decide the driver's result, the guest sees it cut to an int, the upload is consumed, and a negative result ends the listener |
| `EndToEnd.ReadWrite` | src/fpga_driver/xdma_stub/linux-kernel/xdma/cdev_sgdma.c:221-295 | for every buffer below 2^32 bytes whose frames are mapped, the bytes copied are byte k of the guest buffer to or from phy_addr + k for the first k, at least as many as reported and all of them when every transfer completes; a misaligned request, a missing frame or host page, a dead host or a too small escape page copies nothing, with the error codes of the last three; a completed call reports count if and only if count < 2^31 |
| `EndToEnd.BufferOnDevice` | src/fpga_driver/xdma_stub/linux-kernel/xdma/cdev_sgdma.c:221-295 | after a complete write device byte phy_addr + k is byte k of the guest buffer and every other device byte is as it was |
| `EndToEnd.DeviceInBuffer` | src/fpga_driver/xdma_stub/linux-kernel/xdma/cdev_sgdma.c:221-295 | after a complete read the host byte behind guest byte k holds device byte phy_addr + k, the last k winning for shared backing, and other host bytes are as they were |
| `EndToEnd.DistinctPagesDistinctBytes` | src/fpga_driver/xdma_stub/linux-kernel/xdma/fvp_escape.c:680-688 | with distinct backing pages no two bytes of the buffer share a host byte |

## Left out

- ApertureSubmit.XferAperture: a window that itself reaches over 2^64 is excluded (ep_addr_max then lies below ep_addr, and a cut length no longer fits the entry), and so is an aperture of 0 (no descriptor has a length and the loop never ends). What a pass without descriptors writes behind the ring is not modelled; the run ends there.
- Requests.InitRequest: says how many software descriptors are written behind the allocation, not what that does to other memory.
- EscapePages.Host.OnFault: a DMA that asks for more chunks than were uploaded, with all of these mapped, reads outside the block, which has no meaning in C; the model counts it as a DMA that reached the device and ends the run there. The answers of actions without an effect on the upload (ping, open, close, mmap, verify) are not modelled.
- EmptyMappings.VerifyMapping: what the guest does with each frame (soft offlining) is not modelled.
- ManagerContexts.ManagerContext.ReadMappings: `sscanf` is modelled on text without sign, blanks or a second 0x prefix.
- Granules.CountPages: entries for which the source loops forever are excluded.
- RemoteSgl.MapRemotePages: an alignment or granularity of 0, for which the mask is all ones, is excluded; `pci_map_sg` is the identity also on a scatter list without pages.
- Submit.OnePass: a transfer that does not complete moves some first part of its bytes; that the engine is stopped after a timeout is taken from the stop request, not from the hardware.
- Non-incremental addressing is compiled and followed by the descriptor model but has no meaning theorem, since its device address does not advance.
- Streaming with eop_flush, cyclic performance runs and asynchronous requests of the engine.
- Registers, interrupts, poll mode, wait queues and timeouts as such; probing, BARs, character devices.
- Paging on aarch64, five-level paging, TLB invalidation and the mapping of page tables into user space.
- The pinning of pages, the release of buffers and the sizes passed to allocators.
- The local DMA path of the host driver, whose buffer mapping is the same chunk loop.
- The fh_fixup module, the GPU path, the libhook allocator, RSI and SMMU calls, command-line tools and logging.
