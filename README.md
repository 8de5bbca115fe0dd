# Xen network back end, RapidIO sysfs and Xen /dev/mem — a Dafny model

This project models four pieces of a Xen-patched Linux kernel and proves
properties about them.

* **The netback driver** (`drivers/xen/netback/netback.c`). The back end of Xen's
  paravirtual network device covers several pieces:
  * The pool of pending transmit slots: a free ring (`pending_ring`) and a
    ring of finished slots (`dealloc_ring`), with their free-running
    producer and consumer counters masked by `MASK_PEND_IDX`.
  * The optional shuffle of the dealloc ring, and the drain of finished
    slots back to the free ring.
  * The validators of transmit requests: fragment chains, extra-info
    records and GSO settings.
  * Transmit and receive responses, the credit scheduler's refill, the
    check of grant-map results, and the MFN pool of the copying receive
    path.
  * The list of interfaces waiting to transmit, and the receive-slot
    accounting.
* **The interface code** (`drivers/xen/netback/interface.c`) covers:
  * bringing an interface up and down in the least loaded group;
  * `change_mtu`, scatter-gather and TSO offload switches;
  * the initial state set by `netif_alloc`;
  * `netif_map`: mapping the front end's ring pages, retried while the
    hypervisor answers `GNTST_eagain`, each failed step undoing the
    earlier ones.
* **The RapidIO sysfs attributes** (`drivers/rapidio/rio-sysfs.c`) cover:
  * configuration-space reads and writes, split into aligned 1, 2 and
    4 byte big-endian accesses;
  * the memory-window attribute and the selection of its size;
  * the routing-table listing `routes_show`.
* **The Xen `/dev/mem` driver** (`drivers/xen/char/mem.c`) covers:
  * `read_mem` and `write_mem`, which copy page-sized chunks between
    user memory and machine memory after a per-page permission check;
  * `memory_lseek` and `open_mem`.

Modules, one per file:

| file | module | contents |
|---|---|---|
| `kernel.dfy` | `Kernel` | integer widths, page size, error numbers |
| `netif_io.dfy` | `NetifIo` | the shared-ring records of the netif protocol and their flag bits |
| `netif.dfy` | `NetifState` | class `Netif` (one interface: ring cursors, response streams, credit, features, mapping state) and the request validators |
| `netbk.dfy` | `Netbk` | class `Netbk` (pending and dealloc rings, MFN pool, schedule list) and `tx_check_mop` |
| `interface.dfy` | `Interface` | class `Groups` (per-group interface counts and lists), MTU and offload settings, `netif_map` |
| `rio_sysfs.dfy` | `RioSysfs` | class `RioDev` (a device's attributes and its bus trace) |
| `xen_mem.dfy` | `XenMem` | class `MemFile` (the file position and the physical writes made) |

The shared rings are modelled as follows:
* A request ring is a fixed table of slots, read modulo its size.
* A response ring is the append-only sequence of responses produced, so
  its private producer counter is always that sequence's length.

Results of hypercalls, of grant operations and of the RapidIO bus are
parameters:
* a sequence of grant-map status codes, one per attempt;
* the status array of a batch of grant operations;
* a configuration-space function;
* a permission predicate and a remap outcome per page.

Each method is proved against a specification function. Lemmas then
state what the driver promises about that function.

## Model

| member | source | states |
|---|---|---|
| `Netbk.MaskPendIdx` | linux/drivers/xen/netback/netback.c:84 | a masked counter always indexes within the 256-entry pending rings |
| `Netbk.Window` | linux/drivers/xen/netback/netback.c:84 | the live part of a ring between two free-running counters has their difference as length, entry k at the masked index of the start plus k |
| `Netbk.MaskDistinct` | linux/drivers/xen/netback/netback.c:84 | counters less than a ring size apart never share a ring entry, so a window never overlaps itself |
| `Netbk.WindowPush` | linux/drivers/xen/netback/netback.c:1013-1014 | writing at the masked producer and incrementing it appends exactly that value to the window |
| `Netbk.WindowPop` | linux/drivers/xen/netback/netback.c:1370 | reading at the masked consumer takes the window's first entry and leaves the rest |
| `Netbk.IotaCount` | linux/drivers/xen/netback/netback.c:1789-1796 | the initial free ring holds every slot number exactly once |
| `Netbk.Netbk.Init` | linux/drivers/xen/netback/netback.c:1779-1796 | after initialisation every slot is free, in order, nothing is in flight or awaiting dealloc, and the pool invariant holds |
| `Netbk.Netbk.NrPendingReqs` | linux/drivers/xen/netback/netback.c:86-90 | the pending count equals the slots in flight plus those awaiting dealloc, between 0 and MAX_PENDING_REQS |
| `Netbk.Netbk.CanStartPacketLeavesRoom` | linux/drivers/xen/netback/netback.c:1284-1285 | when net_tx_action's guard lets a packet start, at least 1 + MAX_SKB_FRAGS slots are free |
| `Netbk.Netbk.AcquireSlot` | linux/drivers/xen/netback/netback.c:1370 | taking a slot removes the first free slot and puts it in flight, keeping the partition of all slots |
| `Netbk.Netbk.ReleaseToPending` | linux/drivers/xen/netback/netback.c:1013-1014 | a released in-flight slot is appended to the free ring and leaves the in-flight set |
| `Netbk.Netbk.IdxRelease` | linux/drivers/xen/netback/netback.c:1521-1536 | netif_idx_release appends the slot to the dealloc ring and leaves the free ring alone |
| `Netbk.Netbk.IdxReleaseAll` | linux/drivers/xen/netback/netback.c:1521-1536 | releasing a run of in-flight slots appends them, in order, to the dealloc ring |
| `Netbk.Netbk.PermuteDeallocRing` | linux/drivers/xen/netback/netback.c:898-916 | the dealloc window becomes the shuffle Permuted prescribes for the generator state, and the rest of the ring is untouched |
| `Netbk.Netbk.SwapDealloc` | linux/drivers/xen/netback/netback.c:906-913 | exchanges exactly the two ring entries |
| `Netbk.SwapFirstPermutes` | linux/drivers/xen/netback/netback.c:906-913 | swapping the first entry with another keeps the window's contents |
| `Netbk.PermutedIsPermutation` | linux/drivers/xen/netback/netback.c:898-916 | the shuffle is a permutation of the dealloc window |
| `Netbk.ShuffleFromMeaning` | linux/drivers/xen/netback/netback.c:898-916 | the in-place swap loop over the ring produces the Permuted window and leaves entries outside it alone |
| `Netbk.RemIsMod` | linux/drivers/xen/netback/netback.c:907 | the remainder used to pick the swap partner is the modulus |
| `Netbk.Netbk.TxActionDealloc` | linux/drivers/xen/netback/netback.c:918-1020 | every slot awaiting dealloc is returned to the free ring once, shuffled when permute_returns is set and in order otherwise; the dealloc ring ends empty and the pool invariant holds |
| `Netbk.Netbk.PermuteIfAsked` | linux/drivers/xen/netback/netback.c:928-941 | the dealloc window keeps its contents, shuffled only when asked |
| `Netbk.Netbk.ReturnAllDealloc` | linux/drivers/xen/netback/netback.c:943-1019 | the dealloc window moves, in order, to the end of the free ring |
| `Netbk.Netbk.TakeDealloc` | linux/drivers/xen/netback/netback.c:943-948 | the dealloc walk collects the whole window and catches the consumer up with the producer |
| `Netbk.Netbk.ReturnSlots` | linux/drivers/xen/netback/netback.c:1000-1019 | the collected slots are appended to the free ring in order |
| `Netbk.PartitionDrain` | linux/drivers/xen/netback/netback.c:993-1019 | moving any permutation of the dealloc window to the free ring keeps every slot in exactly one place |
| `Netbk.FreeSlotsDistinct` | linux/drivers/xen/netback/netback.c:1370 | while the pool invariant holds, the free ring has no duplicates and no free slot is also in flight or awaiting dealloc |
| `Netbk.Netbk.GetRequests` | linux/drivers/xen/netback/netback.c:1077-1109 | each fragment takes the next free slot, records its request and takes an interface reference; slots not taken keep their records |
| `Netbk.Netbk.StartPacket` | linux/drivers/xen/netback/netback.c:1370-1424 | a packet takes the first 1 + nr_frags free slots, header first, each recording its request |
| `Netbk.Netbk.TakeHeaderSlot` | linux/drivers/xen/netback/netback.c:1370-1422 | the header request takes the first free slot and only its record changes |
| `Netbk.Netbk.TxCheckMop` | linux/drivers/xen/netback/netback.c:1111-1184 | after the grant-map results, the error and every pool, response and reference change are the ones the corrected plan prescribes |
| `Netbk.Netbk.CheckHeader` | linux/drivers/xen/netback/netback.c:1123-1136 | a failed header map answers the header with an error and frees its slot; a good one changes nothing |
| `Netbk.Netbk.CheckFrag` | linux/drivers/xen/netback/netback.c:1141-1180 | one fragment's check applies exactly that fragment's step of the plan |
| `Netbk.Netbk.FailSlot` | linux/drivers/xen/netback/netback.c:1127-1131 | a failed slot is answered NETIF_RSP_ERROR, its reference dropped and the slot returned to the free ring |
| `Netbk.Netbk.QueueSlots` | linux/drivers/xen/netback/netback.c:1165-1177 | already-mapped slots of a failed packet are queued for dealloc, nothing else changes |
| `Netbk.FirstError` | linux/drivers/xen/netback/netback.c:1111-1184 | the result is zero exactly when every status is GNTST_okay |
| `Netbk.MopErrorAndFailures` | linux/drivers/xen/netback/netback.c:1111-1184 | tx_check_mop returns the first failed status and answers exactly the failed slots with an error, in order |
| `Netbk.MopFromAfterError` | linux/drivers/xen/netback/netback.c:1157-1177 | once an error is seen, each later fragment is released exactly once and the error stays |
| `Netbk.MopReleasesEachOnce` | linux/drivers/xen/netback/netback.c:1111-1184 | with the fix, a failed packet releases each of its slots exactly once; a good one releases none |
| `Netbk.MopPlanInFlight` | linux/drivers/xen/netback/netback.c:1111-1184 | every slot the corrected check releases is in flight, so releasing cannot corrupt the pool |
| `Netbk.MopAsWrittenLeaks` | linux/drivers/xen/netback/netback.c:1165-1177 | as written, a second fragment failing after a good first one releases slot 2 twice and never releases slot 1 |
| `Netbk.Netbk.AllocMfn` | linux/drivers/xen/netback/netback.c:108-112 | takes the topmost cached MFN and lowers the index by one |
| `Netbk.Netbk.CheckMfn` | linux/drivers/xen/netback/netback.c:114-133 | with enough cached MFNs nothing changes; otherwise the granted frames are appended; success exactly when at least nr are cached, -ENOMEM otherwise |
| `Netbk.Netbk.AddToScheduleListTail` | linux/drivers/xen/netback/netback.c:818-832 | a schedulable interface not yet listed is appended with a new reference; otherwise nothing changes; the list stays duplicate-free |
| `Netbk.Netbk.RemoveFromScheduleList` | linux/drivers/xen/netback/netback.c:800-816 | a listed interface is unlinked from its position and its reference dropped; an unlisted one is left alone |
| `Netbk.Netbk.TxWorkTodoMeaning` | linux/drivers/xen/netback/netback.c:1679-1689 | there is transmit work exactly when slots await dealloc, or a packet's worth of slots is free and an interface waits |
| `NetifIo.S16` | linux/drivers/xen/netback/netback.c:1619-1621 | the 16-bit two's-complement reading of a status field |
| `NetifState.Netif.Alloc` | linux/drivers/xen/netback/interface.c:214-277 | a new interface: no group, one reference, carrier off, unlimited credit, default MTU and queue length, IP checksum offload only, the dummy MAC, empty rings, nothing mapped |
| `NetifState.DummyMacLargestUnicast` | linux/drivers/xen/netback/interface.c:256-263 | the dummy MAC FE:FF:FF:FF:FF:FF is a unicast address and no unicast address is larger |
| `NetifState.Netif.ResetRings` | linux/drivers/xen/netback/interface.c:374-380 | every ring cursor returns to zero |
| `NetifState.Netif.MakeTxResponse` | linux/drivers/xen/netback/netback.c:1575-1603 | appends the response for the request, followed by a null slot when the request carried extra info |
| `NetifState.ResponseSlots` | linux/drivers/xen/netback/netback.c:1579-1590 | one response carrying the request id and status, plus one NETIF_RSP_NULL slot for an extra-info request |
| `NetifState.AppendResponsesConcat` | linux/drivers/xen/netback/netback.c:1022-1035 | answering a concatenation is answering each part in turn |
| `NetifState.AppendResponsesAnswersEach` | linux/drivers/xen/netback/netback.c:1022-1035 | answering a run of requests keeps earlier responses, answers each id once, in order, with the given status, and adds a slot per extra-info request |
| `NetifState.Netif.TxErr` | linux/drivers/xen/netback/netback.c:1022-1035 | corrected: the first request and every request up to end are answered NETIF_RSP_ERROR, the consumer moves to end, one reference is dropped; when end is less than 2^32 requests ahead, that is as many requests as the walk stopping at cons == end answers on 32-bit indices |
| `NetifState.TxErrStepsAsWritten` | linux/drivers/xen/netback/netback.c:1024-1030 | as written: on 32-bit indices the walk answers end − cons further requests when cons < end, and none otherwise |
| `NetifState.TxErrStepsCount` | linux/drivers/xen/netback/netback.c:1024-1030 | corrected: stopping at cons == end answers exactly the n requests between cons and end, for any n < 2^32, wrapped or not |
| `NetifState.TxErrWrapSkipsRequests` | linux/drivers/xen/netback/netback.c:1026 | with req_cons 0xFFFFFFFE and three further requests, the as-written walk answers none of them and the corrected one answers all three |
| `NetifState.Netif.CountRequests` | linux/drivers/xen/netback/netback.c:1037-1075 | returns what CountSpec prescribes for the next MAX_SKB_FRAGS ring requests; on success the fragment requests read and the first request's size less theirs |
| `NetifState.CountSpecMeaning` | linux/drivers/xen/netback/netback.c:1037-1075 | no chain means 0; a positive count is a valid chain; a non-positive count for a chained request means no valid chain exists; 0 exactly when no work is left or the first fragment is too big |
| `NetifState.CountFromMeaning` | linux/drivers/xen/netback/netback.c:1046-1072 | from any point of the walk, a positive result is a valid chain and a non-positive one rules out every chain |
| `NetifState.ChainLengthUnique` | linux/drivers/xen/netback/netback.c:1037-1075 | a fragment chain has one length |
| `NetifState.ChainSizeBound` | linux/drivers/xen/netback/netback.c:1059-1064 | the fragments of a valid chain fit within the first request's size |
| `NetifState.NoChainPastWork` | linux/drivers/xen/netback/netback.c:1047-1055 | a chain longer than the work left or than MAX_SKB_FRAGS is refused |
| `NetifState.NoChainPastUnfit` | linux/drivers/xen/netback/netback.c:1057-1071 | a fragment larger than the size left ends every chain |
| `NetifState.Netif.GetExtras` | linux/drivers/xen/netback/netback.c:1214-1240 | consumes chained extra-info records and stores each by type: success with the work left; -EINVAL at an unknown type; -EBADR when the work runs out |
| `NetifState.StoreExtrasLastWins` | linux/drivers/xen/netback/netback.c:1220-1237 | for each type, the stored record is the last one of that type in the chain, or the old entry when there is none |
| `NetifState.LastOfType` | linux/drivers/xen/netback/netback.c:1235 | the index of the last record of a type: it has that type and no later record does |
| `NetifState.SetSkbGso` | linux/drivers/xen/netback/netback.c:1242-1263 | success exactly for a non-zero TCPv4 GSO size, which is then set with exactly the TCPV4 and DODGY flags, no other bit, and no segment count; otherwise -EINVAL and nothing set |
| `NetifState.NewCredit` | linux/drivers/xen/netback/netback.c:864-882 | the new credit is the old plus credit_bytes, capped at the larger of credit_bytes and the request size bounded by 128 KiB, and never above ULONG_MAX |
| `NetifState.Netif.TxAddCredit` | linux/drivers/xen/netback/netback.c:864-882 | sets the remaining credit to NewCredit for the request at the consumer |
| `NetifState.Netif.MakeRxResponse` | linux/drivers/xen/netback/netback.c:1605-1626 | appends one receive response whose status is the error, or the size when the copy succeeded |
| `NetifState.RxStatus` | linux/drivers/xen/netback/netback.c:1619-1621 | a negative status is kept; otherwise, for a size of at most PAGE_SIZE, the status is the size |
| `NetifState.Netif.AddFragResponses` | linux/drivers/xen/netback/netback.c:532-549 | appends one response per fragment, in order, as FragResponses prescribes |
| `NetifState.FragResponses` | linux/drivers/xen/netback/netback.c:532-549 | one response per fragment with its id; NETRXF_more_data on all but the last; offset 0 for copied fragments |
| `NetifState.MaxRequiredRxSlots` | linux/drivers/xen/netback/netback.c:229-234 | 1 slot without SG or TSO, MAX_SKB_FRAGS + 2 with either |
| `NetifState.QueueFullMeansShortOfSlots` | linux/drivers/xen/netback/netback.c:236-243 | on 32-bit indices, the queue is full exactly when fewer than needed requests are posted or response slots are free |
| `NetifState.Netif.ReserveRxSlots` | linux/drivers/xen/netback/netback.c:282-283 | the peek cursor advances by the packet's slots and the packet holds a reference |
| `NetifState.RxSlotsFor` | linux/drivers/xen/netback/netback.c:282-283 | a packet takes a slot per fragment plus the head, and one more for GSO; at most MAX_SKB_FRAGS + 2 |
| `NetifState.Netif.GopSkb` | linux/drivers/xen/netback/netback.c:435-469 | the head and each fragment get increasing request slots within the advance, skipping the GSO extra slot |
| `NetifState.Netif.CheckGop` | linux/drivers/xen/netback/netback.c:483-530 | consumes one copy result per copied fragment and one transfer result for the rest; the status is NETIF_RSP_ERROR exactly when some result failed, and eagain is reported exactly when one was GNTST_eagain |
| `NetifState.StatusRunStep` | linux/drivers/xen/netback/netback.c:494-527 | extending the scanned run adds the new status to the failure and eagain tests |
| `Interface.Groups.constructor` | linux/drivers/xen/netback/netback.c:1779-1796 | every group starts with no interfaces |
| `Interface.Groups.LeastLoaded` | linux/drivers/xen/netback/interface.c:57-67 | picks the first group with the fewest interfaces |
| `Interface.LeastLoadedUnique` | linux/drivers/xen/netback/interface.c:57-67 | the choice is determined by the counts |
| `Interface.Groups.NetifUp` | linux/drivers/xen/netback/interface.c:55-78 | the interface joins the least loaded group's list and that group's count goes up by one |
| `Interface.Groups.NetifDown` | linux/drivers/xen/netback/interface.c:80-92 | the interface leaves its group's list, that count goes down by one, and it records no group |
| `Interface.LeaveUndoesJoin` | linux/drivers/xen/netback/interface.c:55-92 | going down after coming up restores the group lists |
| `Interface.RemoveAppended` | linux/drivers/xen/netback/interface.c:69-90 | removing an entry just appended gives back the list |
| `Interface.RemoveOnly` | linux/drivers/xen/netback/interface.c:80-92 | removing a once-listed interface removes it completely |
| `Interface.Groups.NetOpen` | linux/drivers/xen/netback/interface.c:94-102 | the device runs; with the carrier on it joins the least loaded group and its queue wakes |
| `Interface.Groups.NetClose` | linux/drivers/xen/netback/interface.c:104-111 | the device stops and its queue stops; with the carrier on it leaves its group |
| `Interface.Groups.CarrierOn` | linux/drivers/xen/netback/interface.c:385-388 | turning the carrier on brings a running interface up in the least loaded group and leaves a stopped one ungrouped |
| `Interface.MaxMtu` | linux/drivers/xen/netback/interface.c:113-121 | 65535 − ETH_HLEN when the front end negotiated scatter-gather (netif->features), ETH_DATA_LEN otherwise |
| `Interface.ChangeMtu` | linux/drivers/xen/netback/interface.c:113-121 | the MTU is set exactly when it is within MaxMtu of the negotiated features; otherwise -EINVAL and the MTU is unchanged |
| `Interface.FeatureOn` | linux/drivers/xen/netback/interface.c:123-145 | the bit is set and every other feature bit is kept |
| `Interface.FeatureOff` | linux/drivers/xen/netback/interface.c:123-145 | the bit is cleared and every other feature bit is kept |
| `Interface.SetOffload` | linux/drivers/xen/netback/interface.c:123-145 | turning SG or TSO on fails with -ENOSYS unless the front end offers it; turning it off always succeeds |
| `Interface.Tries` | linux/drivers/xen/netback/interface.c:286-290 | the retry loop stops at the first attempt that is not GNTST_eagain |
| `Interface.Settled` | linux/drivers/xen/netback/interface.c:286-290 | the status kept is an attempt's and is never GNTST_eagain |
| `Interface.MapGrant` | linux/drivers/xen/netback/interface.c:286-290 | retries exactly Tries times and returns the settled status |
| `Interface.MapStatus` | linux/drivers/xen/netback/interface.c:279-324 | mapping succeeds exactly when both ring pages map, and never reports GNTST_eagain |
| `Interface.MapFrontendPages` | linux/drivers/xen/netback/interface.c:279-324 | both rings are mapped, with their refs and handles recorded, exactly on success; a failed receive map unmaps the transmit ring |
| `Interface.MapResult` | linux/drivers/xen/netback/interface.c:343-399 | netif_map succeeds exactly when already connected, or when both areas allocate, both pages map and the event channel binds; area failure is -ENOMEM |
| `Interface.NetifMap` | linux/drivers/xen/netback/interface.c:343-399 | an already connected interface is untouched; a failure leaves nothing allocated or mapped; success resets the cursors, takes a reference and turns the carrier on; only the fields netif_map writes may change |
| `Interface.AllocAndMap` | linux/drivers/xen/netback/interface.c:354-363 | each failed step undoes the earlier ones; success leaves both areas allocated and both rings mapped |
| `Interface.StartRings` | linux/drivers/xen/netback/interface.c:370-389 | records the irq, resets the ring cursors, takes a reference and turns the carrier on |
| `RioSysfs.MaxRouteEntries` | linux/drivers/rapidio/rio-sysfs.c:44 | 256 route entries on a small system, 65536 on a large one |
| `RioSysfs.BeValueOfBytes` | linux/drivers/rapidio/rio-sysfs.c:68-195 | decoding the big-endian bytes of a value gives the value back |
| `RioSysfs.BeBytesOfValue` | linux/drivers/rapidio/rio-sysfs.c:68-195 | encoding the value of big-endian bytes gives the bytes back |
| `RioSysfs.PlanTiles` | linux/drivers/rapidio/rio-sysfs.c:91-134 | the accesses of a config transfer cover the range exactly once, in order |
| `RioSysfs.PlanAligned` | linux/drivers/rapidio/rio-sysfs.c:91-134 | every access is naturally aligned for its width |
| `RioSysfs.TilesConcat` | linux/drivers/rapidio/rio-sysfs.c:91-134 | consecutive coverings join into one |
| `RioSysfs.ReadbackTiles` | linux/drivers/rapidio/rio-sysfs.c:68-195 | reading back a covering of a range from what was written gives the range's bytes |
| `RioSysfs.ConfigRoundTrip` | linux/drivers/rapidio/rio-sysfs.c:68-195 | a config read after a config write of the same range gives the written bytes |
| `RioSysfs.Reads` | linux/drivers/rapidio/rio-sysfs.c:91-134 | one config read per access, of its width and offset |
| `RioSysfs.Writes` | linux/drivers/rapidio/rio-sysfs.c:154-192 | one config write per access, carrying the bytes at its offset |
| `RioSysfs.Clip` | linux/drivers/rapidio/rio-sysfs.c:82-89 | nothing at or past the end; otherwise the count, cut at the end |
| `RioSysfs.RioDev.ReadConfig` | linux/drivers/rapidio/rio-sysfs.c:68-137 | clips to the attribute size, or to the first 256 bytes without CAP_SYS_ADMIN, issues the planned reads and stores their big-endian bytes |
| `RioSysfs.RioDev.WriteConfig` | linux/drivers/rapidio/rio-sysfs.c:139-195 | clips to the attribute size and issues the planned writes of the buffer's bytes |
| `RioSysfs.MemoryWindowSize` | linux/drivers/rapidio/rio-sysfs.c:286-299 | 50-bit, 66-bit or 34-bit addressing picks the window size in that order; none gives no window; a 32-bit size truncates to 2 GiB |
| `RioSysfs.RioDev.constructor` | linux/drivers/rapidio/rio-sysfs.c:259-301 | a device starts with no files, no memory window and an empty trace |
| `RioSysfs.RioDev.CreateSysfsDevFiles` | linux/drivers/rapidio/rio-sysfs.c:259-301 | the files created and the error returned at each failing step (config, routes, the switch's own files, the memory file); the memory file exists exactly when its size is non-zero |
| `RioSysfs.RioDev.ReadMemory` | linux/drivers/rapidio/rio-sysfs.c:207-228 | copies the clipped count from the window, or nothing when unmapped |
| `RioSysfs.RioDev.WriteMemory` | linux/drivers/rapidio/rio-sysfs.c:230-251 | writes the clipped count of the buffer to the window, or nothing when unmapped |
| `RioSysfs.WindowBytes` | linux/drivers/rapidio/rio-sysfs.c:207-228 | byte k is the window's byte at offset plus k |
| `RioSysfs.HexRoundTrip` | linux/drivers/rapidio/rio-sysfs.c:49-50 | a fixed-width hex field parses back to its number |
| `RioSysfs.RouteLineParses` | linux/drivers/rapidio/rio-sysfs.c:49-50 | a route line holds the index in 4 hex digits, a space, the port in 2 and a newline |
| `RioSysfs.ValidRoutesExact` | linux/drivers/rapidio/rio-sysfs.c:44-47 | the listed indexes are exactly the valid routes, increasing |
| `RioSysfs.ListingLines` | linux/drivers/rapidio/rio-sysfs.c:38-54 | the listing is 8 bytes per valid route, line k describing the k-th valid route |
| `RioSysfs.ListingPrefix` | linux/drivers/rapidio/rio-sysfs.c:38-54 | the listing of fewer entries begins the longer one |
| `RioSysfs.RioDev.RoutesShow` | linux/drivers/rapidio/rio-sysfs.c:38-54 | as written: returns the whole listing and its length |
| `RioSysfs.RoutesOverflowPage` | linux/drivers/rapidio/rio-sysfs.c:38-54 | a large system's listing with 513 valid routes exceeds the page buffer |
| `RioSysfs.RioDev.RoutesShowBounded` | linux/drivers/rapidio/rio-sysfs.c:38-54 | corrected: returns a prefix of the listing within one page, the whole listing whenever it fits, and otherwise stops only when the next line would not fit |
| `XenMem.Chunk` | linux/drivers/xen/char/mem.c:72-77 | a chunk is positive, within the count, never crosses a page, and ends on a page boundary unless it ends the count |
| `XenMem.Pages` | linux/drivers/xen/char/mem.c:36-55 | the number of pages covering a size |
| `XenMem.AllowedForChunk` | linux/drivers/xen/char/mem.c:79 | a range allowed for the whole count is allowed for its first chunk |
| `XenMem.MemFile.RangeIsAllowed` | linux/drivers/xen/char/mem.c:36-55 | true exactly when every page the range covers is allowed |
| `XenMem.ReadAllOrError` | linux/drivers/xen/char/mem.c:61-110 | read_mem returns the whole count or -EPERM or -EFAULT |
| `XenMem.ReadImageSplit` | linux/drivers/xen/char/mem.c:82-105 | the bytes read are machine memory up to the first chunk that cannot be mapped, then zeros |
| `XenMem.MemFile.ReadMem` | linux/drivers/xen/char/mem.c:61-110 | returns ReadOutcome; on success the buffer holds the read image and the position advances by the count; on failure the position stays and the buffer holds a prefix of the image followed by its old bytes |
| `XenMem.MemFile.CopyToUser` | linux/drivers/xen/char/mem.c:98-105 | copies the reachable prefix and reports the bytes left uncopied |
| `XenMem.MemFile.ClearUser` | linux/drivers/xen/char/mem.c:90-96 | zeroes the reachable prefix, leaves the rest, and reports the bytes left |
| `XenMem.WriteErrorOnlyWhenNothingWritten` | linux/drivers/xen/char/mem.c:112-158 | write_mem returns at least the bytes already written and at most the whole count; once a chunk is written the only error left is -EPERM; any other error (-EFAULT, a mapping error) comes only when nothing was written |
| `XenMem.MemFile.WriteMem` | linux/drivers/xen/char/mem.c:112-158 | returns WriteOutcome; the physical writes go to consecutive addresses from the position and carry a prefix of the user buffer, r bytes on success and none on any error other than -EPERM; earlier writes are kept; the position advances by r |
| `XenMem.MemFile.CopyFromUser` | linux/drivers/xen/char/mem.c:142-153 | writes the reachable prefix to machine memory, keeps the earlier writes, and reports the bytes left |
| `XenMem.MemFile.MemoryLseek` | linux/drivers/xen/char/mem.c:197-218 | SEEK_SET sets, SEEK_CUR adds, anything else is -EINVAL and keeps the position |
| `XenMem.OpenMem` | linux/drivers/xen/char/mem.c:220-223 | success exactly with CAP_SYS_RAWIO, -EPERM otherwise |
| `XenMem.MemFile.constructor` | linux/drivers/xen/char/mem.c:197-223 | a file starts at the given position with no writes |

## Left out

- Hypercalls, grant-table operations, page mapping, event channels and the RapidIO bus are outside the model. Their results are parameters: status sequences, a configuration-space function, a permission predicate, and a remap outcome per page.
- Socket buffers (`sk_buff`) are not modelled. Fragments are their slot, size and copy flag. Checksum, protocol and header handling in `net_tx_action` are not modelled.
- `rx_work_todo` tests whether the receive skb queue is empty. That queue is not modelled, so the predicate is not modelled either.
- `netif_disconnect` is not part of this model: it waits for references, stops timers and unregisters the device. The same holds for `netif_schedule_work`'s ring check and `netif_deschedule_work`.
- Concurrency is not modelled. Locks, memory barriers, tasklets and kthreads, and the credit timer are out. Each operation runs atomically.
- Free-running 32-bit ring counters are modelled as unbounded naturals. This is sound for ring indexing, because the ring sizes divide 2^32. It is not sound for ordered compares of counters. `QueueFull` keeps the 32-bit arithmetic explicitly. `netbk_tx_err`'s `cons >= end` is modelled on 32-bit indices by `TxErrStepsAsWritten` (see Findings); `NetifState.Netif.TxErr` itself is the corrected walk on unbounded counters.
- The C transmit ring slot is a union of a request and an extra-info record. `TxSlot` holds both as independent fields, so a slot read as a request says nothing about the same slot read as an extra-info record.
- Constants from headers that are not part of this model take the values of the Xen and Linux releases of this tree:
  - the netif ring and flag values;
  - MAX_SKB_FRAGS = 18;
  - the GNTST_* codes;
  - NETIF_F_TSO;
  - the RIO_PEF_* bits and RIO_INVALID_ROUTE;
  - RIO_MAX_ROUTE_ENTRIES;
  - the one-page sysfs buffer.
- `Netbk.Netbk.PermuteDeallocRing`: the generator state `random_src` is a field of each `Netbk`. In the driver it is one static variable shared by all groups. Its step, multiplication by 68389 modulo 2^32, and its initial value are the driver's.
- `RioSysfs.RioDev.ReadConfig`: the values the bus returns are assumed to fit their access width.
- The other `rio_config_attr` show functions and the sysfs removal in `rio_remove_sysfs_dev_files` are left out. They are format strings and plumbing.
- `XenMem.MemFile.ReadMem` and `XenMem.MemFile.WriteMem`: the position is reduced modulo 2^64, but the later `p += sz` is not wrapped. Neither is the 2^64 overflow of the address range in `range_is_allowed`.
- `XenMem.MemFile.MemoryLseek`: the file position is an unbounded integer. The signed 64-bit `loff_t` overflow of `f_pos += offset` is not modelled.
- `xen_mmap_mem`, `uncached_access` and the diagnostic `printk` are left out.
- `Netbk.Netbk.TxActionDealloc` covers only how slots move within the pool, in the copy mode without delayed copying. Two things are not modelled:
  - Each returned slot's stored request is answered NETIF_RSP_OKAY on its own interface, and that interface's reference is dropped (netback.c:1000-1019). Responses go to many interfaces, one per slot, and the model of responses covers one interface at a time.
  - In NETBK_DELAYED_COPY_SKB mode, in-flight slots pending for over half a second are copied by `copy_pending_req` and returned directly (netback.c:962-990). Those slots were never on the dealloc ring, so in that mode the free ring gains more than a permutation of the dealloc window. Neither the clock nor the in-use list is modelled.
- `Netbk.Netbk.StartPacket`: the reference a packet holds on its interface for the header slot is the one `net_tx_action` takes at netback.c:1289, before `remove_from_net_schedule_list`. That loop head is not modelled: neither that `netif_get` nor the `netif_put` when there is no work. `StartPacket` counts only the fragments' references, so a run of `RemoveFromScheduleList`, `StartPacket` and a `TxCheckMop` whose maps all fail ends one reference below the driver.
- `NetifState.Netif.CountRequests` returns 0, which is not an error, when the first fragment is invalid. The code negates a fragment count that is still 0, and the model keeps that behaviour.
- `read_mem` and `write_mem` return -EPERM after copying earlier chunks, without moving the file position. The model keeps that behaviour.

## Findings

| source | as written | input that shows it | evidently intended | confidence | as-written member | corrected member |
|---|---|---|---|---|---|---|
| linux/drivers/xen/netback/netback.c:1174 | after a fragment fails, the release of earlier good fragments indexes `frags[i]` rather than `frags[j]` | header and first fragment map, second fragment fails | each earlier fragment's slot is released once, and the failed slot is not released again | not executed | `Netbk.MopAsWrittenLeaks` | `Netbk.MopReleasesEachOnce` |
| linux/drivers/xen/netback/netback.c:1026 | `netbk_tx_err` stops its walk at the ordered compare `cons >= end` of 32-bit ring indices | req_cons = 0xFFFFFFFE and a packet with three further requests, so `end` wraps to 1: none of the three is answered, req_cons is not advanced, and they are later read as fresh requests | stop at `cons == end`, answering every request up to end | not executed | `NetifState.TxErrWrapSkipsRequests` | `NetifState.TxErrStepsCount` |
| linux/drivers/rapidio/rio-sysfs.c:44-53 | `routes_show` prints 8 bytes per valid route into the page buffer with no bound | a large system whose switch has 513 valid routes | the listing stops at one page | not executed | `RioSysfs.RoutesOverflowPage` | `RioSysfs.RioDev.RoutesShowBounded` |
