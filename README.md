# Broadcom PCIe msgbuf protocol and Samsung SIPC5 framing, modelled in Dafny

This project models two driver cores of an Android kernel tree.

**The msgbuf host protocol of the bcmdhd4358a3 Wi-Fi driver**
(`drivers/net/wireless/bcmdhd4358a3/dhd_msgbuf.c`). The host and the dongle
exchange fixed-size work items over DMA rings.
- Host-to-dongle ("H2D") rings are written by the host: RX buffer posts,
  control requests and per-flow TX rings.
- Dongle-to-host ("D2H") rings are the completion rings for TX, RX and
  control.

The model covers:
- `MsgbufPktid`: the packet-id map.
  - A class `PktidMap` of lockers with a free-list FIFO.
  - On it: reserve, save, alloc, free, clear and the available count.
- `MsgbufRing`: the ring indices.
  - Grants of write space, with one retry against a refreshed read index.
  - The rewind of unused slots.
  - D2H reads with the desync guard.
  - The early read index of the RX completion ring.
  - TX doorbell batching.
  - The DMA'd index arrays.
- `MsgbufD2h`: the D2H side.
  - The three sync modes: sequence number, XOR checksum with epoch, and none.
  - Their bounded retry.
  - Dispatch through the 22-entry handler table.
  - The RX and TX completion loops, as class `D2hProt`.
- `MsgbufProt`: the H2D side of `dhd_prot_t`, as class `H2dProt`.
  - RX buffer posting with write-index rollback.
  - Control-path buffer posting.
  - The TX data path with its error unwinding, and TX completion.
  - Return of RX buffers.
  - The ioctl request/response path.
  - `dhd_prot_init` limits, its initial RX and ioctl-response posts, and `dhd_prot_clear`.

**SIPC5 framing of the Samsung modem IPC driver**
(`drivers/misc/modem_v2/sipc5_io_device.c`):
- `Sipc5Frame`: the link header.
  - Length and header-size rules.
  - The header creators: plain, EXT, loopback, legacy RFS, handover and CTRL/multi-format.
  - `sipc5_hdr_parse` and the continue op.
  - A parse-after-create round trip.
- `Sipc5Multifmt`: splitting one write across frames.
  - The 7-bit message-id counter.
  - `sipc_hdr_multifmt_length`, both as written and as intended (see Findings).
- `Sipc5Rx`: `sipc5_recv_multipacket_to_each_skb`.
  - Splits a link buffer into frames, keeping a partial header or frame across buffers in `header_data`.
  - Plus the fragment and legacy-RFS parsers and their continue ops.
- `Sipc5Iodev`: the io device.
  - The bounded rx queue and the per-id multi-format queues.
  - Op selection and routing of link buffers.
  - SIM and modem state for the status ioctl and poll.
  - `misc_read`, as class `IoDevice`.
- `Sipc5Write`: `_boot_write` and `misc_write`.
  - `misc_write` takes the frame-length rule as a parameter: `AsWritten` is the source's `sipc_hdr_multifmt_length`, and `Intended` is the corrected one (see Findings).
  - Proves that the corrected multi-format write, fed frame by frame to the multi-format receive and read back with `misc_read`, returns the written bytes.
  - Proves that the write as written ends such a message early (`MessageEndsEarly`).
- `Wrappers`: the `Option` type.

Only some state is updated in place, and only that is modelled as a class:
- the pktid map, the rings, the DMA index arrays and the protocol structures;
- the multifmt id counter and the header being written;
- the fragment state and the io device queues.

Everything else is a function on values. The modelling choices:
- The loops of the source are methods whose `ensures` ties the result to a specification function, and lemmas prove the properties about that function.
- Buffers (`sk_buff`, host memory) are byte sequences.
- A byte past the end of a buffer reads as 0.
- Integer widths are modelled explicitly where they matter:
  - 16-bit pktid lengths, ring indices and transaction ids;
  - the int16 gap of `dhd_msgbuf_rxbuf_post`;
  - 32-bit sequence numbers;
  - u32 arithmetic in the SIPC5 fragment code.
- Outcomes of the hardware and of the kernel are parameters:
  - DMA mapping, packet allocation, the dongle's indices, the dongle's messages;
  - copy_to_user, the link's send, and the ioctl completion.

Constants from headers that are not part of this model were fixed as follows:
- `CHECK_WRITE_SPACE(r,w,d)` is `r>w ? r-w-1 : (r==0||w==0) ? d-w-1 : d-w`.
- `READ_AVAIL_SPACE(w,r,d)` is `w>=r ? w-r : d-r`.
- `HOST_RING_END(ring)` is the ring's last slot, `max_item - 1`.
- `D2H_EPOCH_MODULO` is 253 and `D2H_EPOCH_INIT_VAL` is 254.
- Ring ids:
  - two H2D common rings;
  - five common rings in all;
  - the RX completion ring is id 4.
- Ioctl constants:
  - `WLC_IOCTL_MAXLEN` 8192;
  - `MSGBUF_MAX_MSG_SIZE` 1518;
  - `WLC_SET_PM` 86, `WLC_GET_VAR` 262 and `WLC_SET_VAR` 263.
- SIPC5 constants:
  - header lengths 4, 5 and 6;
  - START bits 0xF8;
  - PAD 4, EXT 2, CTRL 1;
  - `SIPC_MULTIFMT_MOREBIT` 0x80;
  - ids up to 127;
  - alignment to 4 bytes;
  - `SIPC5_CH_ID_FMT_0` 235;
  - the packet-data channels `PS_DATA_CH_0` 10 to `PS_DATA_CH_LAST` 24;
  - `EBADMSG` 74;
  - the headroom `SIPC_HDR_LEN_MAX` that `sipc5_get_ops` adds is taken to be `SIPC5_HDR_LEN_MAX`, 6.
  - `enum modem_state` codes 0 to 9, in declaration order: OFFLINE, CRASH_RESET, CRASH_EXIT, BOOTING, ONLINE, NV_REBUILDING, LOADER_DONE, SIM_ATTACH, SIM_DETACH and CRASH_WATCHDOG.

## Model

| member | source | states |
|---|---|---|
| MsgbufPktid.Opened | drivers/net/wireless/bcmdhd4358a3/dhd_msgbuf.c:1076-1140 | an opened locker is free with no packet and length 0, and keeps its DMA direction, colour and physical address |
| MsgbufPktid.InUseKeys | drivers/net/wireless/bcmdhd4358a3/dhd_msgbuf.c:1076-1140 | the in-use keys of a range are at most as many as the range holds |
| MsgbufPktid.InUseKeysMembers | drivers/net/wireless/bcmdhd4358a3/dhd_msgbuf.c:1076-1140 | the list holds exactly the keys of the range whose locker is in use, in strictly increasing order |
| MsgbufPktid.InUseKeysTake | drivers/net/wireless/bcmdhd4358a3/dhd_msgbuf.c:1229-1273 | taking one free locker into use adds exactly one in-use key, when it is in the range |
| MsgbufPktid.InUseKeysGive | drivers/net/wireless/bcmdhd4358a3/dhd_msgbuf.c:1374-1396 | giving one in-use locker back removes exactly one in-use key, when it is in the range |
| MsgbufPktid.InUseKeysSameFlags | drivers/net/wireless/bcmdhd4358a3/dhd_msgbuf.c:1277-1288 | rewriting lockers without changing any in-use flag leaves the in-use keys unchanged |
| MsgbufPktid.InUseKeysNone | drivers/net/wireless/bcmdhd4358a3/dhd_msgbuf.c:1076-1140 | a range with no locker in use has no in-use keys |
| MsgbufPktid.PktidMap.MapItems | drivers/net/wireless/bcmdhd4358a3/dhd_msgbuf.c:699-703 | the map holds DHD_PKTIDMAP_FIFO (4) times items lockers |
| MsgbufPktid.PktidMap.Init | drivers/net/wireless/bcmdhd4358a3/dhd_msgbuf.c:853-962 | a new map has all 4 x items keys free, listed in key order 1, 2, ...; avail is items, with no failures and nothing in use |
| MsgbufPktid.PktidMap.AvailCnt | drivers/net/wireless/bcmdhd4358a3/dhd_msgbuf.c:1147-1161 | returns avail, and avail plus the number of in-use keys is items |
| MsgbufPktid.PktidMap.Reserve | drivers/net/wireless/bcmdhd4358a3/dhd_msgbuf.c:1229-1273 | with avail 0: returns the invalid key 0, counts a failure and changes nothing else; otherwise: pops the head of the free list, returns that non-zero key, decrements avail, and marks the locker in use with the packet saved and length 0 |
| MsgbufPktid.PktidMap.Save | drivers/net/wireless/bcmdhd4358a3/dhd_msgbuf.c:1277-1288 | for a key in range, records the DMA direction, colour, physical address and the length truncated to 16 bits; an out-of-range key changes nothing; the counters and free list never change |
| MsgbufPktid.PktidMap.Alloc | drivers/net/wireless/bcmdhd4358a3/dhd_msgbuf.c:1291-1315 | reserve then save: either the invalid key with one more failure, or the head free key whose locker now holds exactly the given packet, address, 16-bit length, direction and colour |
| MsgbufPktid.PktidMap.Free | drivers/net/wireless/bcmdhd4358a3/dhd_msgbuf.c:1324-1400 | a key that is invalid, out of range, not in use or of another colour gives None and changes nothing; otherwise returns the saved packet, physical address and length, appends the key to the free-list tail, increments avail and opens the locker |
| MsgbufPktid.PktidMap.Clear | drivers/net/wireless/bcmdhd4358a3/dhd_msgbuf.c:1058-1143 | opens every in-use locker, appends their keys in key order to the free list, sets avail to items and failures to 0, and leaves locker 0 alone |
| MsgbufPktid.ReserveKeepsInv | drivers/net/wireless/bcmdhd4358a3/dhd_msgbuf.c:1229-1273 | the map invariant (distinct free keys in range, each free, avail = free-list length, in-use + avail = items) survives a reserve, whose head key is a free locker other than 0 |
| MsgbufPktid.SaveKeepsInv | drivers/net/wireless/bcmdhd4358a3/dhd_msgbuf.c:1277-1288 | the map invariant survives a save that keeps the in-use flag |
| MsgbufPktid.FreeKeepsInv | drivers/net/wireless/bcmdhd4358a3/dhd_msgbuf.c:1374-1396 | the map invariant survives freeing an in-use key to the tail with avail + 1 |
| MsgbufPktid.OpenInUse | drivers/net/wireless/bcmdhd4358a3/dhd_msgbuf.c:1076-1140 | the clear loop opens every locker from key 1 on and appends the in-use keys, ascending, to the free list |
| MsgbufPktid.ClearKeepsInv | drivers/net/wireless/bcmdhd4358a3/dhd_msgbuf.c:1058-1143 | after a clear nothing is in use and the map invariant holds with avail = items |
| MsgbufPktid.AvailPlusInUse | drivers/net/wireless/bcmdhd4358a3/dhd_msgbuf.c:1147-1161 | in a valid map, avail + in-use = items, avail never exceeds items, and key 0 is never on the free list |
| MsgbufRing.Modx | drivers/net/wireless/bcmdhd4358a3/dhd_msgbuf.c:80 | MODX always gives an index below the ring size |
| MsgbufRing.AlignToDma | drivers/net/wireless/bcmdhd4358a3/dhd_msgbuf.c:81 | align(x, 4) is the least multiple of 4 not below x, and it equals x exactly when x is already aligned |
| MsgbufRing.CheckWriteSpace | drivers/net/wireless/bcmdhd4358a3/dhd_msgbuf.c:4236-4237 | CHECK_WRITE_SPACE: with r ahead of w the space stops one slot short of r; otherwise it runs to the end of the ring, one slot short of it when r is 0 |
| MsgbufRing.RingSpace | drivers/net/wireless/bcmdhd4358a3/dhd_msgbuf.c:4229-4259 | a grant starts at w, holds at most nitems slots, stays within the ring and moves w to (w + count) mod d; with r inside the ring, NULL exactly when CHECK_WRITE_SPACE is 0 |
| MsgbufRing.RingSpaceSound | drivers/net/wireless/bcmdhd4358a3/dhd_msgbuf.c:4229-4259 | a reservation fails exactly when the ring is full; otherwise it grants min(nitems, write space) contiguous unread slots from w, and the new write index is (w + count) mod d, wraps to 0 exactly at the end of the ring and never lands on r |
| MsgbufRing.AllocGrantAt | drivers/net/wireless/bcmdhd4358a3/dhd_msgbuf.c:3852-3883 | the grant of dhd_alloc_ring_space is the reservation against the read index the ring keeps afterwards |
| MsgbufRing.AllocRetriesOnce | drivers/net/wireless/bcmdhd4358a3/dhd_msgbuf.c:3858-3879 | the read index is refreshed from the dongle exactly when the cached one shows a full ring, and the allocation fails exactly when both show a full ring |
| MsgbufRing.GrantShape | drivers/net/wireless/bcmdhd4358a3/dhd_msgbuf.c:4236-4257 | whatever the cached read index, a grant starts at w, fits before the end of the ring, has 1 to nitems slots and moves w to (w + count) mod d |
| MsgbufRing.RewindAfterGrant | drivers/net/wireless/bcmdhd4358a3/dhd_msgbuf.c:2169-2176 | rewinding by k unused slots right after a grant leaves the write index just past the slots actually filled |
| MsgbufRing.ReadAvailSpace | drivers/net/wireless/bcmdhd4358a3/dhd_msgbuf.c:4452-4493 | READ_AVAIL_SPACE: nothing exactly when w = r; up to w when w is at or past r, and up to the end of the ring when w is behind r |
| MsgbufRing.SrcAddr | drivers/net/wireless/bcmdhd4358a3/dhd_msgbuf.c:4427-4500 | a batch starts at r, holds 1 to d items and fewer than 0x10000 bytes |
| MsgbufRing.SrcAddrSound | drivers/net/wireless/bcmdhd4358a3/dhd_msgbuf.c:4452-4493 | nothing is read when w = r or more than d slots would be readable; otherwise the batch starts at r, has 1 to d items and items x len_items bytes, runs to w (or to the end of the ring when w is behind r), and the read index advances to (r + items) mod d |
| MsgbufRing.SrcAddrOverrun | drivers/net/wireless/bcmdhd4358a3/dhd_msgbuf.c:4458-4466 | a dongle write index in (d, r + d] passes the desync guard and gives a batch that runs past the end of the ring |
| MsgbufRing.SrcAddrDrains | drivers/net/wireless/bcmdhd4358a3/dhd_msgbuf.c:4452-4493 | against an unchanged in-range dongle index, at most two reads consume exactly the pending items and leave r = w |
| MsgbufRing.EarlyStepsTrack | drivers/net/wireless/bcmdhd4358a3/dhd_msgbuf.c:4530-4551 | after k messages of a batch the early read index has moved k slots from the stored read index, and it never passes the batch's new read index |
| MsgbufRing.EarlyReachesNewR | drivers/net/wireless/bcmdhd4358a3/dhd_msgbuf.c:4518-4551 | once every message of an in-range batch is processed, the early read index equals the new read index, so every consumed slot has been released to the dongle |
| MsgbufRing.MsgRing.Attach | drivers/net/wireless/bcmdhd4358a3/dhd_msgbuf.c:4090-4163 | a new ring has zeroed indices, an empty TX batch and sequence number 0, and is not yet initialised |
| MsgbufRing.MsgRing.Init | drivers/net/wireless/bcmdhd4358a3/dhd_msgbuf.c:4165-4181 | the ring is marked initialised |
| MsgbufRing.MsgRing.Detach | drivers/net/wireless/bcmdhd4358a3/dhd_msgbuf.c:4183-4226 | the ring is marked uninitialised |
| MsgbufRing.MsgRing.GetRingSpace | drivers/net/wireless/bcmdhd4358a3/dhd_msgbuf.c:4229-4259 | returns the reservation against the cached read index and advances the write index to the grant's new index, or leaves it alone on NULL |
| MsgbufRing.MsgRing.AllocRingSpace | drivers/net/wireless/bcmdhd4358a3/dhd_msgbuf.c:3852-3883 | one retry with the dongle's refreshed read index; the grant, the kept read index and the new write index are those of AllocGrant and AllocR |
| MsgbufRing.MsgRing.WriteComplete | drivers/net/wireless/bcmdhd4358a3/dhd_msgbuf.c:4262-4283 | the current write index is made visible to the dongle |
| MsgbufRing.MsgRing.TxFlush | drivers/net/wireless/bcmdhd4358a3/dhd_msgbuf.c:3151-3182 | a non-empty pending batch is published and restarted; an empty one changes nothing |
| MsgbufRing.MsgRing.PendOne | drivers/net/wireless/bcmdhd4358a3/dhd_msgbuf.c:3033-3035 | counts a descriptor into the pending batch, recording its slot when it is the first of the batch |
| MsgbufRing.MsgRing.UnpendOne | drivers/net/wireless/bcmdhd4358a3/dhd_msgbuf.c:3033-3035 | takes the last descriptor back out of the pending batch, forgetting the start slot when the batch becomes empty |
| MsgbufRing.MsgRing.RewindWrite | drivers/net/wireless/bcmdhd4358a3/dhd_msgbuf.c:2169-2176 | the write index moves k slots back, wrapping below 0 to the end of the ring |
| MsgbufRing.MsgRing.GetSrcAddr | drivers/net/wireless/bcmdhd4358a3/dhd_msgbuf.c:4427-4500 | stores the dongle's write index, and returns the batch of SrcAddr with the read index advanced past it |
| MsgbufRing.MsgRing.Clear | drivers/net/wireless/bcmdhd4358a3/dhd_msgbuf.c:5030-5044 | both indices of the ring become 0 |
| MsgbufRing.OffsetsSeparate | drivers/net/wireless/bcmdhd4358a3/dhd_msgbuf.c:4290-4342 | distinct rings of one direction have distinct slots in the DMA index arrays; the common H2D rings take slots 0 and 1, the flow rings the slots after them, and the D2H rings slots 0 to 2 |
| MsgbufRing.DmaIndexBuffers.constructor | drivers/net/wireless/bcmdhd4358a3/dhd_msgbuf.c:1551 | the four index arrays start zeroed, with the requested sizes |
| MsgbufRing.DmaIndexBuffers.SetDmaedIndex | drivers/net/wireless/bcmdhd4358a3/dhd_msgbuf.c:4290-4342 | the host writes only the H2D write array and the D2H read array, at the ring's slot; any other type changes nothing |
| MsgbufRing.DmaIndexBuffers.GetDmaedIndex | drivers/net/wireless/bcmdhd4358a3/dhd_msgbuf.c:4346-4423 | reads the low 16 bits of the ring's word, and 0 for an unknown type |
| MsgbufRing.DmaIndexBuffers.ZeroAll | drivers/net/wireless/bcmdhd4358a3/dhd_msgbuf.c:5047-5140 | every slot of the four index arrays becomes 0, and the sizes do not change |
| MsgbufRing.PublishReadsBack | drivers/net/wireless/bcmdhd4358a3/dhd_msgbuf.c:4290-4423 | an index published for one ring reads back unchanged, and the slots of the other rings of that direction keep their values |
| MsgbufD2h.MsgType | drivers/net/wireless/bcmdhd4358a3/dhd_msgbuf.c:399 | the message type is a byte |
| MsgbufD2h.Epoch | drivers/net/wireless/bcmdhd4358a3/dhd_msgbuf.c:443 | the epoch is a byte |
| MsgbufD2h.XorSealed | drivers/net/wireless/bcmdhd4358a3/dhd_msgbuf.c:56-60 | a work item sealed with the XOR of its words has checksum 0, which is what the host checks |
| MsgbufD2h.SelectMode | drivers/net/wireless/bcmdhd4358a3/dhd_msgbuf.c:486-501 | SEQNUM mode when the dongle advertises it, else XORCSUM when advertised, else no sync |
| MsgbufD2h.FirstCompleted | drivers/net/wireless/bcmdhd4358a3/dhd_msgbuf.c:334-474 | an attempt found is one of the remaining attempts of the 3 x 512 and sees the message complete |
| MsgbufD2h.FirstCompletedSound | drivers/net/wireless/bcmdhd4358a3/dhd_msgbuf.c:334-474 | the bounded retry stops at the earliest attempt that sees the message complete, and finds none exactly when no attempt of the 3 x 512 sees it complete |
| MsgbufD2h.FirstCompletedSkips | drivers/net/wireless/bcmdhd4358a3/dhd_msgbuf.c:334-474 | attempts that do not see the message complete do not change where the retry stops |
| MsgbufD2h.SeqAfterWraps | drivers/net/wireless/bcmdhd4358a3/dhd_msgbuf.c:391-393 | in both retrying modes every sync bumps the 32-bit sequence number once, whatever the outcome, so i syncs add i mod 2^32; no-sync mode leaves it alone |
| MsgbufD2h.SyncDelivers | drivers/net/wireless/bcmdhd4358a3/dhd_msgbuf.c:334-474 | if some attempt sees the message complete, it is delivered with the type read at an attempt no later than that one |
| MsgbufD2h.LivelockIsNoop | drivers/net/wireless/bcmdhd4358a3/dhd_msgbuf.c:315-330 | a message that never completes is delivered as type 0, whose table entry is the no-op handler |
| MsgbufD2h.StampedStreamDelivered | drivers/net/wireless/bcmdhd4358a3/dhd_msgbuf.c:338-372 | if the dongle stamps message i with the ring's sequence number plus i, modulo the epoch, every message is delivered with its own type |
| MsgbufD2h.PollForCompletion | drivers/net/wireless/bcmdhd4358a3/dhd_msgbuf.c:345-390 | the stepped poll finds exactly the first completing attempt, returns its type (0 when none completes), and raises the recorded maximum retry count |
| MsgbufD2h.HandlersOf | drivers/net/wireless/bcmdhd4358a3/dhd_msgbuf.c:267-289 | a type has a handler exactly when it is below 22 and is 0, 1, 2 or even; otherwise it runs no handler |
| MsgbufD2h.HandlerTrace | drivers/net/wireless/bcmdhd4358a3/dhd_msgbuf.c:2601-2602 | the messages of a batch run at most one handler each |
| MsgbufD2h.HandlerTraceExact | drivers/net/wireless/bcmdhd4358a3/dhd_msgbuf.c:2601-2602 | when every message's type has a filled slot of table_lookup, the trace has one handler per message, and message i runs the handler in the slot of its type |
| MsgbufD2h.SyncedTypesAt | drivers/net/wireless/bcmdhd4358a3/dhd_msgbuf.c:2583 | message i of a batch syncs against the sequence number after i syncs |
| MsgbufD2h.Dispatch | drivers/net/wireless/bcmdhd4358a3/dhd_msgbuf.c:2551-2627 | dispatch never goes back from the first message, and at most one message is synced and not consumed |
| MsgbufD2h.DispatchOkIsWhole | drivers/net/wireless/bcmdhd4358a3/dhd_msgbuf.c:2551-2627 | each message is synced before it is looked up and looked up before it is passed over, with at most one synced and not passed over; a batch dispatched without error was whole messages, each synced and handled |
| MsgbufD2h.DispatchOkIsWholeAtStart | drivers/net/wireless/bcmdhd4358a3/dhd_msgbuf.c:2551-2627 | a batch dispatched without error from its first message is a whole number of messages, all synced |
| MsgbufD2h.DispatchWhole | drivers/net/wireless/bcmdhd4358a3/dhd_msgbuf.c:2551-2627 | conversely, whole messages whose types are all within the table dispatch without error, each synced, handled and consumed |
| MsgbufD2h.BadTypeStops | drivers/net/wireless/bcmdhd4358a3/dhd_msgbuf.c:2594-2598 | a type of 22 or more stops the batch at once with an error; that message is synced but not handled |
| MsgbufD2h.SyncMessage | drivers/net/wireless/bcmdhd4358a3/dhd_msgbuf.c:334-482 | one sync callback gives the synced type and the next sequence number; the retrying modes also account the retries in the wait statistics |
| MsgbufD2h.SyncAt | drivers/net/wireless/bcmdhd4358a3/dhd_msgbuf.c:2583 | syncing message k gives its type and moves the sequence number to where message k + 1 expects it |
| MsgbufD2h.DispatchBatch | drivers/net/wireless/bcmdhd4358a3/dhd_msgbuf.c:2551-2627 | the dispatch loop's result, handler trace and sequence number are those of Dispatch; on the RX completion ring the early read index takes one step per message passed over, and the last value is published |
| MsgbufD2h.D2hProt.constructor | drivers/net/wireless/bcmdhd4358a3/dhd_msgbuf.c:486-501 | a new D2H state has no sync, zeroed statistics and early index, and nothing published |
| MsgbufD2h.D2hProt.SyncInit | drivers/net/wireless/bcmdhd4358a3/dhd_msgbuf.c:486-501 | zeroes the wait statistics, starts all three completion rings at the initial epoch 254, and installs the mode SelectMode chooses |
| MsgbufD2h.D2hProt.Sync | drivers/net/wireless/bcmdhd4358a3/dhd_msgbuf.c:334-482 | the installed callback on one message: the synced type, one bump of the ring's sequence number in the retrying modes, and the retry statistics |
| MsgbufD2h.D2hProt.ProcessMsgtype | drivers/net/wireless/bcmdhd4358a3/dhd_msgbuf.c:2513-2627 | the batch's dispatch result, handler trace and sequence number are those of Dispatch; the early read index of the RX completion ring follows EarlySteps and is published |
| MsgbufD2h.D2hProt.StoreRxcplnReadIdx | drivers/net/wireless/bcmdhd4358a3/dhd_msgbuf.c:4518-4527 | the early read index is set to the ring's read index |
| MsgbufD2h.D2hProt.EarlyUpd | drivers/net/wireless/bcmdhd4358a3/dhd_msgbuf.c:4530-4551 | unless it has reached r, the early index moves one slot, wrapping at the end of the ring, and is published |
| MsgbufD2h.D2hProt.UpdReadIdx | drivers/net/wireless/bcmdhd4358a3/dhd_msgbuf.c:4502-4515 | the ring's read index is published to the dongle |
| MsgbufD2h.D2hProt.RxBatch | drivers/net/wireless/bcmdhd4358a3/dhd_msgbuf.c:2380-2405 | one RX completion batch: when nothing is readable nothing changes; otherwise at least one item is taken and, for an in-range dongle index, the published read index equals r |
| MsgbufD2h.D2hProt.ProcessRxCpl | drivers/net/wireless/bcmdhd4358a3/dhd_msgbuf.c:2365-2410 | a sent hang does nothing; "more" means at least bound items were taken; otherwise the loop stops with nothing left to read, and the dongle sees the final read index |
| MsgbufD2h.D2hProt.TxBatch | drivers/net/wireless/bcmdhd4358a3/dhd_msgbuf.c:2445-2470 | one TX completion batch: nothing changes when nothing is readable; otherwise the batch is consumed and the read index published |
| MsgbufD2h.D2hProt.ProcessTxCpl | drivers/net/wireless/bcmdhd4358a3/dhd_msgbuf.c:2433-2475 | the TX completion loop: a sent hang does nothing; "more" means at least bound items were taken; otherwise the loop stops with nothing left to read, and the read index is published after every batch |
| MsgbufProt.Int16 | drivers/net/wireless/bcmdhd4358a3/dhd_msgbuf.c:2038-2046 | a difference stored into an int16 is congruent to it modulo 2^16, stays itself below 0x8000 and turns negative from 0x8000 on |
| MsgbufProt.RewindSucc | drivers/net/wireless/bcmdhd4358a3/dhd_msgbuf.c:3127-3133 | rewinding one slot undoes advancing one slot |
| MsgbufProt.Posted | drivers/net/wireless/bcmdhd4358a3/dhd_msgbuf.c:2100-2160 | posting buffers rewrites lockers only, never changing their number |
| MsgbufProt.PostedLockers | drivers/net/wireless/bcmdhd4358a3/dhd_msgbuf.c:2100-2160 | the j-th posted buffer is held in the j-th free key, and every other locker is untouched |
| MsgbufProt.PostSlots | drivers/net/wireless/bcmdhd4358a3/dhd_msgbuf.c:2100-2160 | fills min(n, buffers obtained, avail) slots; each takes the next free key with its buffer, and one failure is counted when the ids ran out first |
| MsgbufProt.PostSlot | drivers/net/wireless/bcmdhd4358a3/dhd_msgbuf.c:2100-2160 | one slot either takes the next free key or stops the loop |
| MsgbufProt.ProtRxbufpost | drivers/net/wireless/bcmdhd4358a3/dhd_msgbuf.c:2069-2183 | no ring space gives -1 with the map untouched; otherwise min(granted, buffers, avail) slots are filled, returned and published, the write index ends just past them (the rest rewound), and the map changes as PostSlots says |
| MsgbufProt.FillGrant | drivers/net/wireless/bcmdhd4358a3/dhd_msgbuf.c:2100-2176 | the granted slots are filled in order and the write index is rewound over the empty ones, ending just past the filled ones |
| MsgbufProt.Returned | drivers/net/wireless/bcmdhd4358a3/dhd_msgbuf.c:3192-3207 | the posted count after rxcnt buffers come back drops by rxcnt, and to 0 when it would go negative |
| MsgbufProt.TxPayloadLen | drivers/net/wireless/bcmdhd4358a3/dhd_msgbuf.c:2990-3000 | the mapped length is the frame length less the 14-byte Ethernet header, in uint32 arithmetic, so a shorter frame wraps |
| MsgbufProt.ClearMap | drivers/net/wireless/bcmdhd4358a3/dhd_msgbuf.c:5047-5140 | after a clear of the map every id is free again and the failure count is 0 |
| MsgbufProt.ClearRings | drivers/net/wireless/bcmdhd4358a3/dhd_msgbuf.c:5055-5068 | all six rings get zero indices |
| MsgbufProt.ReleaseReserved | drivers/net/wireless/bcmdhd4358a3/dhd_msgbuf.c:3135-3138 | a reserved id goes back to the free-list tail, with its locker opened and avail + 1 |
| MsgbufProt.TxRollback | drivers/net/wireless/bcmdhd4358a3/dhd_msgbuf.c:3127-3138 | the slot just written is given back and the pktid released |
| MsgbufProt.TxSlot | drivers/net/wireless/bcmdhd4358a3/dhd_msgbuf.c:2965-3010 | one slot is taken exactly when the ring has space and the payload mapping succeeded, and it is the slot at the old write index; otherwise the write index is unchanged |
| MsgbufProt.TxDescriptor | drivers/net/wireless/bcmdhd4358a3/dhd_msgbuf.c:2945-3035 | succeeds exactly with an id, ring space and a payload mapping; then the head key holds the packet, its address and length, and the slot joins the pending batch; a failure undoes everything done before it (no id counts a failure, a later failure frees the key to the tail) |
| MsgbufProt.TxPlace | drivers/net/wireless/bcmdhd4358a3/dhd_msgbuf.c:2965-3035 | with a reserved key: the slot and mapping succeed exactly as TxSlot says, then the key gets the TX metadata and the slot joins the batch; otherwise the key is freed to the tail and the ring is unchanged |
| MsgbufProt.CStr | drivers/net/wireless/bcmdhd4358a3/dhd_msgbuf.c:3525-3544 | the C string is the prefix of the buffer before its first NUL |
| MsgbufProt.QueryRouteOf | drivers/net/wireless/bcmdhd4358a3/dhd_msgbuf.c:3516-3544 | an empty length or iovar name is a bad argument; "bcmerrorstr" and "bcmerror" are answered locally; anything else goes to the dongle |
| MsgbufProt.Normalised | drivers/net/wireless/bcmdhd4358a3/dhd_msgbuf.c:3290-3294 | any non-negative ioctl result becomes 0, and a negative one is kept |
| MsgbufProt.WmeDp | drivers/net/wireless/bcmdhd4358a3/dhd_msgbuf.c:3296-3303 | the installed wme_dp is a byte, and it is 0 when the buffer is too short to hold the value |
| MsgbufProt.H2dProt.Init | drivers/net/wireless/bcmdhd4358a3/dhd_msgbuf.c:1797-1824 | the RX post limit is the dongle's MAX_HOST_RXBUFS, or the default 256 when that is 0; the event and ioctl-response limits, the TX flush threshold and transaction id 1 are set; the counters start at 0, as the zeroed allocation of dhd_prot_attach (dhd_msgbuf.c:1415) leaves them |
| MsgbufProt.H2dProt.InitialPosts | drivers/net/wireless/bcmdhd4358a3/dhd_msgbuf.c:1885-1886 | the posts that end dhd_prot_init: RX buffers up to the post limit, then ioctl-response buffers; each post takes one pktid and advances its ring's write index by one, the ioctl-response count stays within its limit, and nothing is posted while the bus is down |
| MsgbufProt.H2dProt.RxBurst | drivers/net/wireless/bcmdhd4358a3/dhd_msgbuf.c:2048-2060 | one burst counts the buffers the dongle now holds; ids are used and the write index advances by exactly that number |
| MsgbufProt.H2dProt.RxbufPost | drivers/net/wireless/bcmdhd4358a3/dhd_msgbuf.c:2030-2065 | tops the RX post ring up: no bursts when the int16 gap is at most 0; otherwise it stops when the limit is reached, a burst fails or the 63 tries are spent; the posted count, ids and write index move together |
| MsgbufProt.H2dProt.RxbufpostCtrl | drivers/net/wireless/bcmdhd4358a3/dhd_msgbuf.c:2186-2302 | succeeds exactly when the bus is up, a buffer was obtained and mapped, there is ring space and an id is free; then the head key holds the buffer and the slot is published; on failure the ring and the map are unchanged, except one failure counted when the ids ran out |
| MsgbufProt.H2dProt.PostCtrlpath | drivers/net/wireless/bcmdhd4358a3/dhd_msgbuf.c:2305-2325 | posts up to maxToPost buffers, and stops early only on a missing buffer, no id or no ring space; returns the count as uint16 |
| MsgbufProt.H2dProt.PostIoctlrespBufs | drivers/net/wireless/bcmdhd4358a3/dhd_msgbuf.c:2328-2344 | the ioctl-response pool grows by the number posted and never exceeds its limit |
| MsgbufProt.H2dProt.PostEventBufs | drivers/net/wireless/bcmdhd4358a3/dhd_msgbuf.c:2347-2362 | the event pool grows by the number posted and never exceeds its limit |
| MsgbufProt.H2dProt.TxData | drivers/net/wireless/bcmdhd4358a3/dhd_msgbuf.c:2945-3147 | as written: BCME_OK exactly when a flow table, an id, ring space, a payload mapping and (when wanted) a metadata mapping are all there, with the descriptor posted and flushed at the threshold or the last slot; a metadata failure leaves the pending count one too high (see Findings) |
| MsgbufProt.H2dProt.TxDataCorrected | drivers/net/wireless/bcmdhd4358a3/dhd_msgbuf.c:2945-3147 | the same outcomes, with the metadata failure also taking the descriptor out of the batch, so the batch accounting holds after every call |
| MsgbufProt.H2dProt.TxFinish | drivers/net/wireless/bcmdhd4358a3/dhd_msgbuf.c:3103-3113 | flushes exactly when the batch reached the threshold or the descriptor took the last slot, and counts the packet in flight (uint16) |
| MsgbufProt.H2dProt.TxdataWriteFlush | drivers/net/wireless/bcmdhd4358a3/dhd_msgbuf.c:3151-3182 | with a flow table, a non-empty pending batch is published and the batch reset; without one nothing happens |
| MsgbufProt.H2dProt.TxstatusProcess | drivers/net/wireless/bcmdhd4358a3/dhd_msgbuf.c:2714-2773 | the in-flight count drops unless it is 0; the packet comes back and the id is freed exactly when the pktid names an in-use TX locker |
| MsgbufProt.H2dProt.ReturnRxbuf | drivers/net/wireless/bcmdhd4358a3/dhd_msgbuf.c:3192-3207 | the posted count drops (saturating), and the ring is refilled exactly when it is RXBUFPOST_THRESHOLD below the limit |
| MsgbufProt.H2dProt.FillupIoctReqst | drivers/net/wireless/bcmdhd4358a3/dhd_msgbuf.c:3890-3954 | with ring space, one request carrying the command, the input length capped at 1518, the output length and the next uint16 transaction id is published; otherwise -1 and nothing changes |
| MsgbufProt.H2dProt.IoctlRespBuf | drivers/net/wireless/bcmdhd4358a3/dhd_msgbuf.c:3600-3625 | an in-use ioctl-response pktid is freed, and its packet is returned only for a non-empty response; any other pktid changes nothing |
| MsgbufProt.H2dProt.Cmplt | drivers/net/wireless/bcmdhd4358a3/dhd_msgbuf.c:3569-3640 | bus down gives -1; one response buffer is taken and the pool refilled; no buffer before and none posted gives -1; otherwise the result is the bus return when it is not positive, else the completion status (CmpltRet) |
| MsgbufProt.H2dProt.QueryIoctl | drivers/net/wireless/bcmdhd4358a3/dhd_msgbuf.c:3516-3566 | bad arguments and the cached iovars are answered without a request; otherwise a request with the next transaction id and the capped uint16 length is sent exactly when the control ring grants a slot, and its result is what dhdmsgbuf_cmplt returns; with no slot the result is -1 |
| MsgbufProt.H2dProt.SetIoctl | drivers/net/wireless/bcmdhd4358a3/dhd_msgbuf.c:3642-3676 | bus down or a sent hang gives -EIO with no request; otherwise a request with the next transaction id and the capped length is sent exactly when the control ring grants a slot, and its result is what dhdmsgbuf_cmplt returns; with no slot the result is -1 |
| MsgbufProt.H2dProt.IssueIoctl | drivers/net/wireless/bcmdhd4358a3/dhd_msgbuf.c:3280-3288 | a set on a down or hung bus is -EIO; a query with a bad argument is BCME_BADARG; a cached query is 0; a request bound for the dongle is sent exactly when a slot is granted, and then returns the dongle's answer, else -1 (IssueRet) |
| MsgbufProt.H2dProt.IoctlLocked | drivers/net/wireless/bcmdhd4358a3/dhd_msgbuf.c:3278-3307 | the set or query result (IssueRet, so the dongle's answer for a sent request) is normalised; a positive query result becomes ioc->used; a negative one is recorded as the dongle error; a successful "wme_dp" set is installed |
| MsgbufProt.DongleAnswerReported | drivers/net/wireless/bcmdhd4358a3/dhd_msgbuf.c:3278-3292 | a request sent with a response buffer in place reports the bus return when it is not positive, else the dongle's status, and the ioctl succeeds exactly when the bus returned 0 or the status is non-negative |
| MsgbufProt.H2dProt.ProtIoctl | drivers/net/wireless/bcmdhd4358a3/dhd_msgbuf.c:3215-3316 | refused with -1 and no change when the bus is down, suspended or hung, a WLC_SET_PM is ignored under CONFIG_CONTROL_PM, len is above 8192 or an ioctl is pending; otherwise the command is recorded and the result is that of IoctlLocked, with pending restored |
| MsgbufProt.H2dProt.ProtClear | drivers/net/wireless/bcmdhd4358a3/dhd_msgbuf.c:5047-5140 | every ring's indices and every counter are 0, the ioctl state is reset with transaction id 1, the pktid map is fully free, and every slot of the four DMA index arrays is 0 with their sizes kept |
| Sipc5Frame.HdrLen | drivers/misc/modem_v2/sipc5_io_device.c:433-447 | the header length is 6 exactly with the EXT bit, 5 exactly with CTRL and no EXT, else 4 |
| Sipc5Frame.Le16 | drivers/misc/modem_v2/sipc5_io_device.c:232-235 | a 16-bit field is below 2^16 |
| Sipc5Frame.Le32 | drivers/misc/modem_v2/sipc5_io_device.c:232-235 | a 32-bit field is below 2^32 |
| Sipc5Frame.PacketLen | drivers/misc/modem_v2/sipc5_io_device.c:232-235 | without the EXT bit the length is the 16-bit field; it always fits 32 bits |
| Sipc5Frame.HeaderSize | drivers/misc/modem_v2/sipc5_io_device.c:245-253 | CTRL for a multi-format frame, EXT when len > 0xFFFF - 6, plain otherwise |
| Sipc5Frame.HeaderSizeFits | drivers/misc/modem_v2/sipc5_io_device.c:245-253 | the header chosen for a payload never truncates its length field |
| Sipc5Frame.Align | drivers/misc/modem_v2/sipc5_io_device.c:302-306 | SIPC_ALIGN is the least multiple of 4 not below n |
| Sipc5Frame.PutLe16 | drivers/misc/modem_v2/sipc5_io_device.c:295 | writing a 16-bit field reads back the value |
| Sipc5Frame.PutLe32 | drivers/misc/modem_v2/sipc5_io_device.c:290 | writing a 32-bit field reads back the value |
| Sipc5Frame.PlainHeader | drivers/misc/modem_v2/sipc5_io_device.c:283-310 | the EXT header is 6 bytes, the plain one 4 |
| Sipc5Frame.StartValid | drivers/misc/modem_v2/sipc5_io_device.c:433-447 | sipc5_start_valid: the buffer is not empty and its config byte has the START bits 0xF8 |
| Sipc5Frame.HdrCreate | drivers/misc/modem_v2/sipc5_io_device.c:283-310 | the frame is the plain 4- or 6-byte header followed by the payload, padded to 4 bytes when the link is aligned |
| Sipc5Frame.HdrCreateIpcloopback | drivers/misc/modem_v2/sipc5_io_device.c:312-334 | the loopback frame is the plain frame on channel FMT_0 |
| Sipc5Frame.HdrCreateLegacyRfs | drivers/misc/modem_v2/sipc5_io_device.c:336-345 | the 4-byte RFS header is dropped when present before the SIPC5 header goes on |
| Sipc5Frame.HdrCreateHandover | drivers/misc/modem_v2/sipc5_io_device.c:374-379 | the Ethernet header is dropped when present before the SIPC5 header goes on |
| Sipc5Frame.HdrCreateMultifmt | drivers/misc/modem_v2/sipc5_io_device.c:347-371 | without a multi-format value the plain header is used |
| Sipc5Frame.Trim | drivers/misc/modem_v2/sipc5_io_device.c:441 | skb_trim keeps the first min(n, len) bytes |
| Sipc5Frame.HdrParse | drivers/misc/modem_v2/sipc5_io_device.c:433-447 | an invalid start is -EBADMSG; otherwise the frame is trimmed to its packet length and its header pulled off |
| Sipc5Frame.ParseRet | drivers/misc/modem_v2/sipc5_io_device.c:433-447 | 0 exactly on a successful parse |
| Sipc5Frame.MultifmtContinue | drivers/misc/modem_v2/sipc5_io_device.c:449-460 | the continue status is 1 or 0 |
| Sipc5Frame.FinishShape | drivers/misc/modem_v2/sipc5_io_device.c:283-310 | padding keeps the header flags and the payload, sets PAD exactly on an aligned link, and makes the length SIPC_ALIGN of the frame |
| Sipc5Frame.LengthAt | drivers/misc/modem_v2/sipc5_io_device.c:232-235 | the length field at offset 2 reads what was written there |
| Sipc5Frame.ParseCreate | drivers/misc/modem_v2/sipc5_io_device.c:283-310 | parse undoes create: a frame whose length fits its field has a valid start, names the channel, carries the header-inclusive length and parses back to the payload, aligned or not |
| Sipc5Frame.CfgFlags | drivers/misc/modem_v2/sipc5_io_device.c:283-310 | the cfg bytes 0xFA, 0xF8 and 0xF9 announce EXT, plain and CTRL headers without PAD |
| Sipc5Frame.PlainHeaderExt | drivers/misc/modem_v2/sipc5_io_device.c:286-290 | the EXT header is 0xFA, the channel and the 32-bit header-inclusive length |
| Sipc5Frame.PlainHeaderShort | drivers/misc/modem_v2/sipc5_io_device.c:291-296 | the plain header is 0xF8, the channel and the 16-bit header-inclusive length |
| Sipc5Frame.CreatedFrame | drivers/misc/modem_v2/sipc5_io_device.c:283-310 | any created header with a correct length field gives a frame that parses back to the payload under that header |
| Sipc5Frame.FinishedLength | drivers/misc/modem_v2/sipc5_io_device.c:283-310 | the finished frame keeps the header length, the EXT flag and the length field |
| Sipc5Frame.ParseCreateMultifmt | drivers/misc/modem_v2/sipc5_io_device.c:347-371 | a CTRL frame parses back to its payload, its ctl byte carries multifmt, and the continue op asks for more exactly when MOREBIT is set |
| Sipc5Frame.TypeTrans | drivers/misc/modem_v2/sipc5_io_device.c:851-862 | IPv6 exactly for version 6, IPv4 exactly for version 4, and 0 for any other first nibble |
| Sipc5Multifmt.ClearMore | drivers/misc/modem_v2/sipc5_io_device.c:417-418 | clearing MOREBIT keeps the id bits |
| Sipc5Multifmt.Opening | drivers/misc/modem_v2/sipc5_io_device.c:411-413 | a new message's ctl byte has MOREBIT and its id |
| Sipc5Multifmt.MultifmtId.constructor | drivers/misc/modem_v2/sipc5_io_device.c:395 | the counter starts at -1 |
| Sipc5Multifmt.MultifmtId.Next | drivers/misc/modem_v2/sipc5_io_device.c:397-400 | each call increments the counter and returns an id in 1..127 |
| Sipc5Multifmt.NthId | drivers/misc/modem_v2/sipc5_io_device.c:397-400 | every id is in 1..127 |
| Sipc5Multifmt.IdsCycle | drivers/misc/modem_v2/sipc5_io_device.c:397-400 | consecutive messages get different ids, and the ids repeat every 127 messages |
| Sipc5Multifmt.LengthAsWritten | drivers/misc/modem_v2/sipc5_io_device.c:402-425 | as written: a short write or a non-fmt device is one frame; otherwise the frame is min(rest, multi_len), minus 5 only when full-size and still flagged, and MOREBIT is set exactly when more than multi_len bytes remain (see Findings) |
| Sipc5Multifmt.Length | drivers/misc/modem_v2/sipc5_io_device.c:402-425 | as intended: each frame with its 5-byte header fits multi_len, carries at least one byte, keeps the message id, and has MOREBIT exactly when bytes remain after it |
| Sipc5Multifmt.FrameLength | drivers/misc/modem_v2/sipc5_io_device.c:402-425 | under either length rule a short write or non-fmt device is one frame, and a long fmt message's frame takes at most what remains, at least one byte while bytes remain, and keeps the message id |
| Sipc5Multifmt.Plan | drivers/misc/modem_v2/sipc5_io_device.c:1420-1479 | the intended write sends one to count - copied frames |
| Sipc5Multifmt.PlanFrames | drivers/misc/modem_v2/sipc5_io_device.c:402-425 | the frames of an intended multi-format write add up to the message, each fits multi_len, each carries the id, and MOREBIT is on all but the last |
| Sipc5Multifmt.PlanAsWritten | drivers/misc/modem_v2/sipc5_io_device.c:1420-1479 | the write as written sends one to count - copied frames |
| Sipc5Multifmt.MoreBitClearedEarly | drivers/misc/modem_v2/sipc5_io_device.c:415-421 | as written, a 195-byte write at multi_len 100 clears MOREBIT on the second of three frames |
| Sipc5Multifmt.FinalFrameOversize | drivers/misc/modem_v2/sipc5_io_device.c:415-421 | as written, a 192-byte write at multi_len 100 ends with a 102-byte frame |
| Sipc5Multifmt.SipcHdr.constructor | drivers/misc/modem_v2/sipc5_io_device.c:1420-1440 | a write starts with no multi-format value and header size 0 |
| Sipc5Multifmt.MultifmtLength | drivers/misc/modem_v2/sipc5_io_device.c:402-425 | the frame length and ctl value of the given length rule (FrameLength), drawing a new id exactly for the first frame of a long message |
| Sipc5Rx.Zeros | drivers/misc/modem_v2/sipc5_io_device.c:606-610 | n zero bytes |
| Sipc5Rx.Cleared | drivers/misc/modem_v2/sipc5_io_device.c:606-610 | the memset header_data has no length, no fragment and channel 0 |
| Sipc5Rx.Overwrite | drivers/misc/modem_v2/sipc5_io_device.c:614-620 | memcpy replaces exactly the bytes at [at, at + n) |
| Sipc5Rx.Prefix | drivers/misc/modem_v2/sipc5_io_device.c:684-686 | a memcpy from a buffer reads its first n bytes |
| Sipc5Rx.Carry | drivers/misc/modem_v2/sipc5_io_device.c:704-714 | a tail shorter than a header is kept in hdr, with its length as the fragment length |
| Sipc5Rx.Demux | drivers/misc/modem_v2/sipc5_io_device.c:731-743 | the buffer goes to an existing io device (the fragment's, else its channel's), and to none exactly when neither exists |
| Sipc5Rx.Scan | drivers/misc/modem_v2/sipc5_io_device.c:659-695 | next_frame, corrected to refuse a length field shorter than the header (see Findings), keeps the state well formed |
| Sipc5Rx.Trailing | drivers/misc/modem_v2/sipc5_io_device.c:704-714 | the trailing check keeps the state well formed |
| Sipc5Rx.RestOf | drivers/misc/modem_v2/sipc5_io_device.c:629-657 | the rest-of-fragment step keeps the state well formed |
| Sipc5Rx.Resume | drivers/misc/modem_v2/sipc5_io_device.c:590-627 | finishing a pending header keeps the state well formed |
| Sipc5Rx.Recv | drivers/misc/modem_v2/sipc5_io_device.c:578-722 | the split, with next_frame corrected to refuse a length field shorter than the header (see Findings), keeps the state well formed |
| Sipc5Rx.NextFrame | drivers/misc/modem_v2/sipc5_io_device.c:659-695 | one pass of next_frame goes on exactly as Scan does, consuming input when it goes on |
| Sipc5Rx.AfterSend | drivers/misc/modem_v2/sipc5_io_device.c:697-714 | the check after send_next_stage goes on exactly as Trailing does |
| Sipc5Rx.ResumeFrame | drivers/misc/modem_v2/sipc5_io_device.c:590-627 | the pending-frame part goes on exactly as Resume does |
| Sipc5Rx.RestStep | drivers/misc/modem_v2/sipc5_io_device.c:629-657 | the rest-of-fragment part goes on exactly as RestOf does |
| Sipc5Rx.PlainParse | drivers/misc/modem_v2/sipc5_io_device.c:433-447 | succeeds exactly on a valid start, and a failure leaves the buffer alone |
| Sipc5Rx.ParseFragment | drivers/misc/modem_v2/sipc5_io_device.c:462-484 | a continuing buffer is left alone; an invalid start is -EBADMSG; a new frame records its header, packet length and header length |
| Sipc5Rx.FragmentContinue | drivers/misc/modem_v2/sipc5_io_device.c:486-513 | status 0 and a reset fragment exactly when the frame is complete, else 1 with the new count; fatal exactly when more than the frame arrived |
| Sipc5Rx.ParseLegacyRfs | drivers/misc/modem_v2/sipc5_io_device.c:515-538 | succeeds exactly for a continuing buffer or a valid start, and leaves a continuing buffer alone |
| Sipc5Rx.RfsPush | drivers/misc/modem_v2/sipc5_io_device.c:527-536 | pushing the RFS header keeps the result code |
| Sipc5Rx.LegacyRfsContinue | drivers/misc/modem_v2/sipc5_io_device.c:540-556 | always status 0; the fragment resets when complete; fatal exactly when more than the frame arrived |
| Sipc5Rx.HeaderParse | drivers/misc/modem_v2/sipc5_io_device.c:433-538 | every header_parse op keeps the state well formed |
| Sipc5Rx.ParseContinue | drivers/misc/modem_v2/sipc5_io_device.c:449-556 | every continue op keeps the state well formed |
| Sipc5Rx.FragData.constructor | drivers/misc/modem_v2/sipc5_io_device.c:578-722 | both header_data structures start cleared |
| Sipc5Rx.FragData.RecvMultipacket | drivers/misc/modem_v2/sipc5_io_device.c:578-722 | the result, the buffers sent on and the new state are those of the corrected Recv |
| Sipc5Rx.FragData.Parse | drivers/misc/modem_v2/sipc5_io_device.c:1495-1500 | header_parse on h_post gives HeaderParse |
| Sipc5Rx.FragData.ParseCont | drivers/misc/modem_v2/sipc5_io_device.c:1516-1520 | header_parse_continue on h_post gives ParseContinue |
| Sipc5Rx.FramesOnAll | drivers/misc/modem_v2/sipc5_io_device.c:578-722 | frames each well formed on a device channel satisfy the recursive FramesOn |
| Sipc5Rx.Tagged | drivers/misc/modem_v2/sipc5_io_device.c:697-702 | each frame becomes one buffer, in order, with the fragment tag |
| Sipc5Rx.HeaderOfPrefix | drivers/misc/modem_v2/sipc5_io_device.c:668-677 | the start check, length field and channel of a frame come from its header only |
| Sipc5Rx.SplitFrames | drivers/misc/modem_v2/sipc5_io_device.c:659-714 | well-formed frames laid end to end come back whole, in order, as separate buffers, and the state is unchanged |
| Sipc5Rx.SplitThen | drivers/misc/modem_v2/sipc5_io_device.c:659-714 | the same with more input after the frames, where the split then goes on |
| Sipc5Rx.TaggedCons | drivers/misc/modem_v2/sipc5_io_device.c:697-702 | the buffers of a run are its first buffer then the rest |
| Sipc5Rx.SplitStep | drivers/misc/modem_v2/sipc5_io_device.c:659-714 | one more frame in front of a known split goes out first |
| Sipc5Rx.TrailingFrame | drivers/misc/modem_v2/sipc5_io_device.c:704-714 | input starting with a whole frame goes back to next_frame |
| Sipc5Rx.FrontFrame | drivers/misc/modem_v2/sipc5_io_device.c:659-702 | next_frame sends the frame at the front whole and goes on with what follows |
| Sipc5Rx.TaggedRoutes | drivers/misc/modem_v2/sipc5_io_device.c:731-743 | each of those buffers is demultiplexed to its frame's channel |
| Sipc5Rx.RecvFrames | drivers/misc/modem_v2/sipc5_io_device.c:578-743 | from the reset state, a buffer of well-formed frames comes back as the frames, in order, each routed to its own channel, and the state stays reset |
| Sipc5Rx.Saved | drivers/misc/modem_v2/sipc5_io_device.c:678-690 | the saved pending frame has its header, its full length and the bytes received so far |
| Sipc5Rx.FragmentStarts | drivers/misc/modem_v2/sipc5_io_device.c:678-695 | a frame cut after its header goes out as it is and is saved as the pending frame |
| Sipc5Rx.FragmentCompletes | drivers/misc/modem_v2/sipc5_io_device.c:629-657 | the rest of the pending frame completes it, the state resets, and the frames after it come back whole |
| Sipc5Rx.RestOfWhole | drivers/misc/modem_v2/sipc5_io_device.c:629-657 | exactly the due bytes end the pending frame and reset the state |
| Sipc5Rx.HeaderCarried | drivers/misc/modem_v2/sipc5_io_device.c:704-714 | frames followed by part of a header: the frames come back and the partial header is kept |
| Sipc5Rx.HeaderCompletes | drivers/misc/modem_v2/sipc5_io_device.c:590-657 | the next buffer completes that header, which goes out on its own, then the payload, and the state resets |
| Sipc5Rx.HeaderGoesOut | drivers/misc/modem_v2/sipc5_io_device.c:590-627 | the header rebuilt from the carried bytes is delivered first |
| Sipc5Rx.PayloadGoesOut | drivers/misc/modem_v2/sipc5_io_device.c:629-657 | the payload is then the pending frame's last part |
| Sipc5Rx.ResumeFill | drivers/misc/modem_v2/sipc5_io_device.c:590-627 | a pending header completed by the input goes out first, or -EINVAL when no device takes it |
| Sipc5Rx.HeaderRebuilt | drivers/misc/modem_v2/sipc5_io_device.c:614-620 | the carried bytes and the rest of the frame rebuild the frame's own header and length |
| Sipc5Rx.SameHeader | drivers/misc/modem_v2/sipc5_io_device.c:232-235 | buffers that agree on a header agree on its cfg, channel and length |
| Sipc5Rx.NextFrameAsWritten | drivers/misc/modem_v2/sipc5_io_device.c:677-694 | as written, next_frame cuts PacketLen bytes off the front |
| Sipc5Rx.ShortLengthFrameCarried | drivers/misc/modem_v2/sipc5_io_device.c:677-713 | as written, a frame whose length field is 2 sends its first 2 bytes and keeps the 4 left as a partial 6-byte header, for every x and y; the corrected split refuses it with -EBADMSG |
| Sipc5Rx.ZeroLengthFrameLoops | drivers/misc/modem_v2/sipc5_io_device.c:677-713 | a valid start with length field 0 leaves the input unchanged as written, so the split loops; the corrected split returns -EBADMSG |
| Sipc5Rx.ContinueAllCompletes | drivers/misc/modem_v2/sipc5_io_device.c:486-513 | reading a pending frame in pieces that add up to what is due: status 1 on every piece but the last, 0 on the last, and no error |
| Sipc5Rx.CreatedPlain | drivers/misc/modem_v2/sipc5_io_device.c:283-310 | a plain frame created on an unaligned link is well formed, names the channel and carries the payload after 4 bytes |
| Sipc5Rx.CreatedExt | drivers/misc/modem_v2/sipc5_io_device.c:283-310 | the same for the EXT header, after 6 bytes |
| Sipc5Rx.LegacyRfsRoundTrip | drivers/misc/modem_v2/sipc5_io_device.c:336-345 | a buffer created with a correct RFS header parses back to exactly what was sent, and reading it resets the state |
| Sipc5Rx.LegacyRfsWhole | drivers/misc/modem_v2/sipc5_io_device.c:515-556 | a whole frame parses to the RFS header counting itself and the payload, then the payload |
| Sipc5Rx.ParsedWhole | drivers/misc/modem_v2/sipc5_io_device.c:462-484 | a whole frame parses to its payload, recording its header and length |
| Sipc5Iodev.QueueBound | drivers/misc/modem_v2/sipc5_io_device.c:790 | the bound is the larger of the module and device bounds |
| Sipc5Iodev.Enqueue | drivers/misc/modem_v2/sipc5_io_device.c:788-811 | the buffer goes to the tail; the head (oldest) buffer is dropped first exactly when the bound is nonzero and, converted to __u32 for the comparison with the queue length, below it |
| Sipc5Iodev.EnqueueBounded | drivers/misc/modem_v2/sipc5_io_device.c:788-811 | with a bound in 1 .. 2^32 - 1 the queue never grows past bound + 1 |
| Sipc5Iodev.EnqueueNegative | drivers/misc/modem_v2/sipc5_io_device.c:795-797 | a negative int bound compares as a __u32 above 2^31 and never drops a buffer from a queue shorter than that |
| Sipc5Iodev.FrameId | drivers/misc/modem_v2/sipc5_io_device.c:824 | the id of a CTRL frame is at most 127 |
| Sipc5Iodev.RecvMultifmtQueues | drivers/misc/modem_v2/sipc5_io_device.c:814-846 | a non-CTRL frame goes straight to the rx queue; a CTRL frame only touches the queue of its id, and the rx queue only grows |
| Sipc5Iodev.RecvMultifmtAll | drivers/misc/modem_v2/sipc5_io_device.c:814-846 | the id queues keep their number |
| Sipc5Iodev.MessageReleased | drivers/misc/modem_v2/sipc5_io_device.c:814-846 | a message's frames come out on the rx queue whole and in order, behind what was held for the id; that queue empties and the others are untouched |
| Sipc5Iodev.StateCode | drivers/misc/modem_v2/sipc5_io_device.c:1223-1242 | the status codes are 0 to 9 |
| Sipc5Iodev.SimStateChanged | drivers/misc/modem_v2/sipc5_io_device.c:1063-1077 | on an opened device a new SIM state is recorded and flagged; otherwise nothing changes |
| Sipc5Iodev.ModemStatus | drivers/misc/modem_v2/sipc5_io_device.c:1223-1242 | a crash state is reported as it is; else a pending SIM change is consumed and reported as attach or detach; else the phone state, with NV_REBUILDING reported once then ONLINE |
| Sipc5Iodev.SimChangeReportedOnce | drivers/misc/modem_v2/sipc5_io_device.c:1063-1077 | a SIM change is reported by the next status call and not by the one after |
| Sipc5Iodev.SimStateIdempotent | drivers/misc/modem_v2/sipc5_io_device.c:1063-1077 | reporting the same SIM state twice has the effect of reporting it once |
| Sipc5Iodev.Poll | drivers/misc/modem_v2/sipc5_io_device.c:1142-1183 | POLLERR without a device; data readable exactly while booting or online with no SIM change and a non-empty queue; POLLHUP exactly for fmt or boot devices in a crash, while NV rebuilding, or after a SIM change |
| Sipc5Iodev.Sipc5GetOps | drivers/misc/modem_v2/sipc5_io_device.c:988-1021 | every SIPC5 device has demux, create and parse; MULTIFMT, RX_FRAGMENT, LEGACY_RFS and HANDOVER then override in that order |
| Sipc5Iodev.GetOps | drivers/misc/modem_v2/sipc5_io_device.c:1029-1038 | SIPC4, or no SIPC5, leaves the ops empty; SIPC5 sets 6 bytes of headroom and its ops |
| Sipc5Iodev.RecvRoute | drivers/misc/modem_v2/sipc5_io_device.c:932-968 | an empty buffer or a device without ops is -EINVAL; otherwise the fragment op, then demux, then the packet op takes the buffer |
| Sipc5Iodev.Sipc5Routes | drivers/misc/modem_v2/sipc5_io_device.c:932-1021 | a SIPC5 device takes every non-empty buffer, through the split on RX_FRAGMENT and through demux otherwise |
| Sipc5Iodev.ReadLoop | drivers/misc/modem_v2/sipc5_io_device.c:1481-1532 | the read never copies more than count, and only appends; a success returns the bytes copied; an error is -EFAULT or -EBADMSG |
| Sipc5Iodev.ReadOneFrame | drivers/misc/modem_v2/sipc5_io_device.c:1481-1532 | a plain device reads one frame's payload up to count, and puts back what did not fit at the head |
| Sipc5Iodev.CtrlFrameParsed | drivers/misc/modem_v2/sipc5_io_device.c:433-460 | a CTRL frame parses to its payload, and continue says 1 exactly when MOREBIT is set |
| Sipc5Iodev.ReadCtrlFrame | drivers/misc/modem_v2/sipc5_io_device.c:1481-1532 | one round on a CTRL frame copies its payload whole, then goes on or stops as MOREBIT says |
| Sipc5Iodev.ReadMessage | drivers/misc/modem_v2/sipc5_io_device.c:1481-1532 | with room, one read returns a whole multi-format message, in order, leaving the queue behind it |
| Sipc5Iodev.MessageSplit | drivers/misc/modem_v2/sipc5_io_device.c:1481-1532 | a message's payload is its first frame's then the rest's |
| Sipc5Iodev.ModemCtl.constructor | drivers/misc/modem_v2/sipc5_io_device.c:1223-1242 | the modem starts offline, with no SIM and no change pending |
| Sipc5Iodev.IoDevice.constructor | drivers/misc/modem_v2/sipc5_io_device.c:782-846 | a new device is closed, with empty queues |
| Sipc5Iodev.IoDevice.RecvSkbMiscdev | drivers/misc/modem_v2/sipc5_io_device.c:782-812 | returns the buffer length; an unopened device drops the buffer, an opened one enqueues it as Enqueue says |
| Sipc5Iodev.IoDevice.QueueMove | drivers/misc/modem_v2/sipc5_io_device.c:558-566 | the id queue is appended to the rx queue, head first, and emptied |
| Sipc5Iodev.IoDevice.RecvMultifmt | drivers/misc/modem_v2/sipc5_io_device.c:814-846 | returns the buffer length; an unopened device is unchanged; otherwise the queues become RecvMultifmtQueues |
| Sipc5Iodev.IoDevice.MiscRead | drivers/misc/modem_v2/sipc5_io_device.c:1481-1532 | the result, the bytes, the queue and the parse state are those of ReadLoop |
| Sipc5Iodev.IoDevice.ReadRound | drivers/misc/modem_v2/sipc5_io_device.c:1490-1529 | one round either ends as ReadLoop does or leaves the rest of ReadLoop to do, making progress |
| Sipc5Iodev.IoDevice.SimStateChangedOn | drivers/misc/modem_v2/sipc5_io_device.c:1063-1077 | the modem state becomes SimStateChanged's |
| Sipc5Iodev.IoDevice.ModemStatusIoctl | drivers/misc/modem_v2/sipc5_io_device.c:1223-1242 | the result and the new modem state are ModemStatus's |
| Sipc5Iodev.IoDevice.MiscPoll | drivers/misc/modem_v2/sipc5_io_device.c:1142-1183 | the mask is Poll's for this device |
| Sipc5Write.BootWriteChunks | drivers/misc/modem_v2/sipc5_io_device.c:1381-1418 | a boot write returns count or an error; on success the buffers sent spell out the data in chunks of 1 to MAX_BOOTDATA_SIZE, with nzlp on all but the last |
| Sipc5Write.ChunkAppend | drivers/misc/modem_v2/sipc5_io_device.c:1390-1416 | appending a chunk keeps every chunk's size in range and marks nzlp as stated |
| Sipc5Write.BootChunk | drivers/misc/modem_v2/sipc5_io_device.c:1390-1416 | one more chunk still spells out a prefix of the data |
| Sipc5Write.BootWriteFrom | drivers/misc/modem_v2/sipc5_io_device.c:1381-1418 | the rest of a boot write returns count or an error, only appends to the buffers sent, and sends at most one buffer per remaining byte |
| Sipc5Write.BootWrite | drivers/misc/modem_v2/sipc5_io_device.c:1381-1418 | the loop's result and buffers are those of BootWriteFrom |
| Sipc5Write.CreateFrame | drivers/misc/modem_v2/sipc5_io_device.c:1455-1460 | without header_create the payload is sent raw; the plain op is sipc5_hdr_create |
| Sipc5Write.NextStep | drivers/misc/modem_v2/sipc5_io_device.c:1430-1435 | without multifmt_length the whole count is one frame; with it, the frame of the given length rule (FrameLength), which keeps the message id and never runs past the data |
| Sipc5Write.WriteStep | drivers/misc/modem_v2/sipc5_io_device.c:1420-1479 | under either length rule a round goes on only for IPC_FMT with bytes left, having copied at least one byte; a finished write returns count or an error |
| Sipc5Write.WriteFrom | drivers/misc/modem_v2/sipc5_io_device.c:1420-1479 | under either length rule a write returns count or an error |
| Sipc5Write.MiscWrite | drivers/misc/modem_v2/sipc5_io_device.c:1420-1479 | the result, the buffers sent and the id counter are those of WriteFrom under the given length rule; misc_write as written is the AsWritten rule |
| Sipc5Write.WriteRound | drivers/misc/modem_v2/sipc5_io_device.c:1425-1477 | one round of the loop is WriteStep under the given length rule |
| Sipc5Write.Frames | drivers/misc/modem_v2/sipc5_io_device.c:1462-1470 | one frame per buffer sent |
| Sipc5Write.CreatedCtrl | drivers/misc/modem_v2/sipc5_io_device.c:347-371 | a created multi-format frame is a CTRL frame carrying ctl's id and MOREBIT and the payload |
| Sipc5Write.MultifmtRound | drivers/misc/modem_v2/sipc5_io_device.c:1420-1479 | in the corrected write, a clean round sends a CTRL frame of the message with the next bytes and MOREBIT exactly when bytes remain |
| Sipc5Write.MultifmtNext | drivers/misc/modem_v2/sipc5_io_device.c:1420-1479 | in the corrected write, the state after such a round is again a clean round of the message |
| Sipc5Write.CleanRoundIs | drivers/misc/modem_v2/sipc5_io_device.c:1420-1479 | in the corrected write, a round without failures sends its frame, then goes on or finishes with count |
| Sipc5Write.MultifmtStep | drivers/misc/modem_v2/sipc5_io_device.c:402-425 | in the corrected write, each frame of a message carries its id and one to multi_len - 5 bytes, with MOREBIT exactly when bytes remain |
| Sipc5Write.CleanRound | drivers/misc/modem_v2/sipc5_io_device.c:1420-1479 | under either length rule, a round without failures sends the frame it builds, then goes on or returns count |
| Sipc5Write.WriteMessage | drivers/misc/modem_v2/sipc5_io_device.c:1420-1479 | a clean corrected multi-format write returns count, draws one id, and sends one message whose payloads spell out the data |
| Sipc5Write.MessageMore | drivers/misc/modem_v2/sipc5_io_device.c:1420-1479 | in the corrected write, a message is its first frame then what the rest of the write sends |
| Sipc5Write.MessageCons | drivers/misc/modem_v2/sipc5_io_device.c:814-846 | a CTRL frame followed by the rest of its message is a message |
| Sipc5Write.MessageFramesAll | drivers/misc/modem_v2/sipc5_io_device.c:814-846 | each frame of a message is one the multi-format receive holds or releases |
| Sipc5Write.WriteThenRead | drivers/misc/modem_v2/sipc5_io_device.c:814-846 | the frames of a clean corrected write, received by the multi-format receive, land in order on the rx queue, and a read with room returns exactly the data |
| Sipc5Write.MessageEndsEarly | drivers/misc/modem_v2/sipc5_io_device.c:402-425 | as written, the second round of a 195-byte message with multi_len 100 copies up to byte 190 but sends a CTRL frame without MOREBIT, ending the message with 5 bytes still to send |
| Sipc5Write.WriteSingleFrame | drivers/misc/modem_v2/sipc5_io_device.c:1420-1479 | under either length rule, a plain write sends one frame that names the channel and parses back to the data, with the EXT header exactly when the data exceeds 0xFFFF - 6 |

MsgbufProt.MulAdd, MsgbufProt.DropOne, Sipc5Rx.NoWrap, Sipc5Rx.SubNoWrap, Sipc5Rx.AppendNil and Sipc5Rx.Pair are arithmetic and sequence helpers for the proofs above. They state nothing about either driver and have no row.

## Left out

- Locking:
  - the pktid map spinlock;
  - the `ioctl_mutex`;
  - the ring and general locks.
  These give mutual exclusion only. The model runs one call at a time.
- The early return of `dhd_pktid_map_free` on an invalid key (dhd_msgbuf.c:1340-1344), which leaves the spinlock held. Locking is not modelled, so the model returns without a lock to release.
- DMA mapping and unmapping, `PKTGET`, `PKTFREE` and cache flushes. Their outcomes are parameters:
  - the buffers obtained;
  - a physical address of 0 for a failed mapping.
- Bus shared memory and the doorbell. A published index is a field.
- The blocking ioctl wait and its timeout. Their outcome is the `IoctlEnv` parameter.
- The flow-ring lifecycle, the pktid audit, legacy `pktid_map_unique`, debug dumps, DMA loopback and `dhd_prot_process_ctrlbuf`. The flow-ring handlers only forward status to the bus layer, which is not part of this model.
- rx_dataoffset is modelled as 0. The outer `dhd_prot_process_msgtype` is then one inner call.
- The header macros that are not part of this model are fixed as above: `CHECK_WRITE_SPACE`, `READ_AVAIL_SPACE`, `HOST_RING_END`, the epoch modulus, the ring ids and the ioctl and SIPC5 constants.
- MsgbufProt.H2dProt.TxData: models flow-ring mode only; the ring passed in is the packet's flow ring, `flow_ring_table[flowid].prot_info`. In push mode (`dhd_bus_is_txmode_push`) the source posts to `h2dring_txp_subn` but leaves flowid 0, so its flush goes to `flow_ring_table[0].prot_info` instead of the ring posted to. That mode, and the push-mode `dhd_ring_init` of `h2dring_txp_subn` in `dhd_prot_init`, are not modelled.
- MsgbufProt.H2dProt.TxDataCorrected: flow-ring mode only, as for TxData.
- MsgbufProt.H2dProt.TxFinish: flushes the ring it posted to, which is the source's behaviour in flow-ring mode only.
- MsgbufD2h.Dispatch: `hang` (`hang_was_sent`, checked before each message at dhd_msgbuf.c:2571-2574) is one value for the whole batch. A hang raised partway through a batch, as the livelock path does at dhd_msgbuf.c:327-328, therefore does not stop the batch at the next message.
- MsgbufProt.TxPayloadLen: the "wrong tx size" check is only logged in the source, and is not modelled.
- Memory-allocation failures (`-ENOMEM` from alloc or clone) inside `sipc5_recv_multipacket_to_each_skb`. That split always allocates successfully here.
- Sipc5Write.MiscWrite: does not model the overflow of `len + headroom + 3` in the allocation size, because allocation is a parameter.
  - It requires `count < 2^31`, as the int `rest_len` of `_boot_write` does for Sipc5Write.BootWrite.
  - Its configuration requires `multi_len > 5` for multi-format writes, which the source never checks.
- Sipc5Write.MultifmtRound, Sipc5Write.MultifmtNext, Sipc5Write.MultifmtStep, Sipc5Write.CleanRoundIs, Sipc5Write.MessageMore and Sipc5Write.WriteMessage: stated for the corrected (`Intended`) frame length only. As written, a message can end before its last frame (Sipc5Write.MessageEndsEarly, Sipc5Multifmt.MoreBitClearedEarly).
- Sipc5Write.WriteThenRead: the write-then-read round trip holds for the corrected multi-format write only. For `misc_write` as written (Sipc5Write.MiscWrite with `AsWritten`) no such round trip is promised, because the receiver ends the message early.
- Sipc5Rx.Recv, Sipc5Rx.Scan and Sipc5Rx.NextFrame: take next_frame with the correction of Findings row 2, which refuses a length field shorter than the header with -EBADMSG. The source instead sends a buffer of that length on. For [0xF8, ch, 2, 0, x, y] it sends the 2-byte [0xF8, ch]. The 4 bytes left, [2, 0, x, y], begin with cfg byte 2, which has the EXT bit and so announces a 6-byte header; they are kept in header_data as a partial header whatever x and y are (Sipc5Rx.ShortLengthFrameCarried).
- Sipc5Rx.FragData.RecvMultipacket: is the corrected Recv, so it refuses those buffers too, where the source sends them on.
- MsgbufProt.H2dProt.Init: stops before the initial RX and ioctl-response posts that end dhd_prot_init. Those posts are MsgbufProt.H2dProt.InitialPosts, run on the initialised structure.
- Sipc5Multifmt.Length: requires `multi_len > 5` so that a frame can carry a byte after its CTRL header. The source has no such check.
- Sipc5Multifmt.MultifmtId.Next: the atomic counter is sequential here, and its 32-bit wrap is not modelled.
- The netdev receive paths, `check_ipc_loopback`, wake locks, `poll_wait`, msleep, sysfs attributes, registration and panic callbacks. These are I/O or scheduling.
- Queues are values, so aliasing between `sk_buff_head`s is not modelled.
- Bytes read past the end of an sk_buff read as 0.
- The link's send, allocation and copy outcomes, and the tailroom bytes used for padding, are parameters.
- The check in the multi-format receive that rejects an id of 128 or more. `ctl & 0x7F` is always below 128.

## Findings

| source | as written | input that shows it | evidently intended | confidence | as-written member | corrected member |
|---|---|---|---|---|---|---|
| drivers/misc/modem_v2/sipc5_io_device.c:402-425 | MOREBIT is cleared when the remaining bytes fit multi_len, before the 5-byte CTRL header is deducted from a full-size frame | count 195, multi_len 100 gives frames of 95 (MOREBIT), 95 (no MOREBIT) and 5 bytes, so the receiver ends the message after the second; count 192 gives a last frame of 97 + 5 = 102 bytes, over multi_len | each frame with its header fits multi_len, and MOREBIT is cleared only on the frame that carries the last byte | not executed | Sipc5Multifmt.MoreBitClearedEarly | Sipc5Multifmt.PlanFrames |
| drivers/misc/modem_v2/sipc5_io_device.c:677-713 | next_frame trusts the length field: a valid start with length 0 consumes nothing, and the trailing check jumps back to next_frame on the same input | link buffer [0xF8, ch, 0, 0] followed by anything | a length field shorter than the header is refused with -EBADMSG | not executed | Sipc5Rx.ZeroLengthFrameLoops | Sipc5Rx.RecvFrames |
| drivers/net/wireless/bcmdhd4358a3/dhd_msgbuf.c:3033-3035 | the err_rollback_idx path rewinds the write index after a failed metadata mapping, but leaves the descriptor counted in pend_items_count | tx_metadata_offset > 0, enough headroom, and the metadata DMA_MAP returns 0; the published write index is the rewound one, but the pending count is one too high, so the next flush's cache flush covers one item too many and the txp_threshold flush comes one descriptor early | the rollback also takes the descriptor back out of the pending batch | not executed | MsgbufProt.H2dProt.TxData | MsgbufProt.H2dProt.TxDataCorrected |
