# Verified models of ESP-IDF components

This project models the state machines and algorithms of the vendored ESP-IDF components and proves what
their callers rely on: application tracing, C++ static-initialisation guards, over-the-air updates, the
interrupt-driven drivers (CAN, RMT, I2C, SDMMC, LEDC), the console's argument splitter, the release of
Bluetooth memory, and the CRC of the SD protocol over SPI.  There is one module for each source file, or for
each layer of it:

- `TraceRing`, `TraceLog`, `TracePending`, `TraceInflow`, `TraceWait`, `TraceTransport`: application tracing in streaming
  mode with the largest pending buffer.  The ring hands out contiguous chunks and may give up its tail; the
  pending store counts whole user blocks into chunks that fit a memory block; the transport fills one block
  while the host reads the other.  The log says where each accepted message is, the inflow what became of the host's
  payloads.  What the host does is given for each poll of a call, so that it is settled which calls succeed.  The
  result is lossless, ordered streaming under every interleaving of the target's calls with the host's steps, and
  calls that succeed whenever the host acknowledges in time.
- `StaticInit`: any number of tasks and guards, with one mutex, one counting semaphore and one counter, as a
  transition system whose steps lie between the operations on these.
- `OtaSelect`: which application boots, from the two-sector OTA data; the switch to another slot, also across
  a power failure; rollback.  `OtaWrite`: an image written in pieces of any size, with and without flash
  encryption.
- `CanTransmit`, `RmtRefill`, `I2cMaster`, `SdmmcDma`, `LedcFade`: each driver is a class whose methods are
  its critical sections or interrupt handlers, together with methods for what its controller does.  For CAN,
  RMT and SDMMC a machine on values says what each step amounts to; the class is proved to follow it under
  every schedule, and the results are about all its runs.  `SdmmcEvents` is the machine for SDMMC: the engine
  may release a descriptor between any two accesses of the driver to memory, status bits are raised, queued
  by the interrupt handler and joined with unhandled ones.
- `SplitArgv`, `BtMemory`, `SdspiCrc`: loops over a buffer, a region table and a message.
- `Bytes`: bytes, optional values, concatenation and memcpy.

Classes keep the fields of the C structures and change them step by step; the pure functions beside them say
what the steps amount to.  The hardware and the peers are part of the models: the trace host, the TX buffer
of the CAN controller, the RMT read pointer, the I2C command registers and FIFOs, the DMA engine, the LEDC
ramp, the flash sectors.  Logging, locks, allocation failures and register plumbing are not.

Where the code does not do what one would expect, there is an exact condition and a concrete case:

- `esp_ota_set_boot_partition` returns ESP_OK for a test application partition, but makes the OTA slot with
  its low four bits boot (`OtaSelect.OtaData.SetBootPartition`, `OtaSelect.BootTest`).
- A boot switch whose new sequence number is 0xFFFFFFFF changes nothing (`OtaSelect.SwitchBoots`,
  `OtaSelect.BootErased`); one whose number does not fit in 32 bits searches for ever or leaves another slot booting
  (`OtaSelect.SwitchEnds`, `OtaSelect.SearchRunsOn`, `OtaSelect.SearchFinds`, `OtaSelect.WrongSlot`).
- An I2C read of up to 32 bytes directly behind a start makes the controller repeat the start, and every
  sixteenth condition behind a read is lost (`I2cMaster.Master.CmdBegin`, `I2cMaster.BusTold`,
  `I2cMaster.StartRead`, `I2cMaster.ReadThenStops`).
- After a bus-off `can_transmit` takes the foremost frame out of the queue, which need not be the one that it
  has just put in (`CanTransmit.BusOffTakesForemost`, `CanTransmit.ForeignFrame`).
- The descriptor countdown of an SDMMC transfer does not reach 0 when two releases share a status bit; the end
  of the data then ends the transfer (`SdmmcEvents.Countdown`, `SdmmcEvents.OneInterrupt`).
- The comment at `sdmmc_host.c:581-585` expects only card-detect events to be dropped when the event queue is
  full.  A transfer of more than 41 buffers can lose others, among them the end of the data, without which the
  driver waits for its timeout
  (`SdmmcEvents.LostExactly`, `SdmmcEvents.NeverReturns`).
- Releasing the Bluetooth memory mode by mode stops where the first region has become idle
  (`BtMemory.BleThenClassic`, `BtMemory.ClassicStays`).

## Model

| member | source | states |
|---|---|---|
| TraceRing.GrantHands | esp-idf/components/app_trace/app_trace_util.c:96-136 | A granted request gets n cells in one piece that hold no queued byte; whatever is written to them, and only there, comes out behind all that was queued |
| TraceRing.GrantComplete | esp-idf/components/app_trace/app_trace_util.c:96-136 | With bytes queued, a request is refused only if no position of the ring at all hands out n free cells in one piece behind the queued bytes, be it by giving up the tail or not |
| TraceRing.EmptyGrants | esp-idf/components/app_trace/app_trace_util.c:96-136 | An empty ring grants the cells behind its position, up to the last one unless that position is 0, and otherwise fewer cells than lie before its position, with the chunk given exactly |
| TraceRing.HandsFits | esp-idf/components/app_trace/app_trace_util.c:96-126 | Behind queued bytes free cells in one piece lie only behind the write position or, with the tail given up, at the start of the storage before the read position |
| TraceRing.WrapEarly | esp-idf/components/app_trace/app_trace_util.c:115-126 | Also when the ring shrinks to its write position and starts again at cell 0, the chunk handed out overlaps no live byte and nothing queued is lost |
| TraceRing.TakeFront | esp-idf/components/app_trace/app_trace_util.c:138-162 | A consume of at most the contiguous length gives exactly the oldest bytes, in one piece, and the rest stays queued in order, also where the full size comes back |
| TraceRing.TakeComplete | esp-idf/components/app_trace/app_trace_util.c:138-162 | The oldest n bytes lie in one piece if and only if n is at most the contiguous length |
| TraceRing.RoomIsGranted | esp-idf/components/app_trace/app_trace_util.c:177-191 | A request of at most the write size is always granted without giving up the tail; a write size of 0 means that all cells but one are live |
| TraceRing.RingBuffer.Produce | esp-idf/components/app_trace/app_trace_util.c:96-136 | With bytes queued, a chunk is handed out if and only if n free cells in one piece can follow the queued bytes at all, also by giving up the tail; an empty ring grants exactly what fits behind or before its position; a refusal changes nothing |
| TraceRing.RingBuffer.Consume | esp-idf/components/app_trace/app_trace_util.c:138-162 | Removes exactly the front bytes if these lie in one piece, and otherwise refuses without any change |
| TraceRing.RingBuffer.ReadSizeGet | esp-idf/components/app_trace/app_trace_util.c:164-175 | The contiguous length at the front, which is 0 if and only if the ring is empty |
| TraceRing.RingBuffer.WriteSizeGet | esp-idf/components/app_trace/app_trace_util.c:177-191 | The largest request that a ring at its full size grants at the write position, without giving up the tail |
| TraceRing.RingBuffer.WriteAll | esp-idf/components/app_trace/app_trace.c:629-655 | Stores exactly the first min(size, capacity - 1 - length) bytes, in order, in however many pieces the ring needs |
| TraceRing.Replay | esp-idf/components/app_trace/app_trace_util.c:96-162 | A ring is a FIFO under every sequence of calls: each call is granted exactly when the cursor that the earlier calls lead to grants it, and the bytes taken, as many as the granted calls ask for, followed by the bytes queued are the bytes of the granted chunks in order |
| TraceLog.ParseWire | esp-idf/components/app_trace/app_trace.c:102-106 | A block of whole user blocks decodes to exactly its messages: no message is cut, and none has a written size other than its allocated one |
| TraceLog.RestValid | esp-idf/components/app_trace/app_trace.c:453-467 | Taking the oldest chunk leaves a well-formed backlog; the chunk fits one block, and it is empty only if nothing at all is pending |
| TraceLog.AppendValid | esp-idf/components/app_trace/app_trace.c:433-451 | Accounting for a block keeps whole messages together, chunks within a block and neighbouring chunks above one block together |
| TraceLog.AppendFits | esp-idf/components/app_trace/app_trace.c:301-307 | With a pending size of at most two blocks a block that closes a chunk finds at most one closed chunk |
| TraceLog.SwitchKeeps | esp-idf/components/app_trace/app_trace.c:471-567 | A block switch loses, duplicates and reorders no message, and an empty input block afterwards means that nothing is pending |
| TraceLog.SwitchShrinks | esp-idf/components/app_trace/app_trace.c:815-827 | What is still to be shown to the host shrinks with each switch by the input block, the measure for the flush loop |
| TracePending.PendingStore.ChunkSzUpdate | esp-idf/components/app_trace/app_trace.c:433-451 | A size joins the open chunk if both fit a block, and closes it otherwise; the slot for the closed size is always granted |
| TracePending.PendingStore.ChunkSzGet | esp-idf/components/app_trace/app_trace.c:453-467 | The oldest queued size, or else the open chunk, which is then closed |
| TracePending.PendingStore.Alloc | esp-idf/components/app_trace/app_trace.c:727-745 | A message is pended if and only if the ring grants its bytes; then the queued sizes and the open size still sum to the bytes in the ring; a refusal leaves the ring as it was |
| TracePending.PendingStore.PumpChunk | esp-idf/components/app_trace/app_trace.c:522-553 | Exactly the oldest chunk goes to the start of the new block, the marker is its length, and the ring is where its pieces have been taken |
| TracePending.Pump | esp-idf/components/app_trace/app_trace.c:528-553 | The copy loop moves exactly the requested bytes, also when they wrap in the ring |
| TracePending.SlotIsGranted | esp-idf/components/app_trace/app_trace.c:441-449 | The chunk-size ring grants a two-byte slot whenever at most one size is queued, so its assertion does not fire |
| TraceTransport.TraceBuffer.constructor | esp-idf/components/app_trace/app_trace.c:849-875 | The initial state: block 0 is filled, an empty block 1 is exposed, nothing is pending |
| TraceTransport.TraceBuffer.BlockSwitch | esp-idf/components/app_trace/app_trace.c:471-567 | Switches if and only if the host has read the exposed block: the input block is exposed unchanged, the other one starts with the oldest pending chunk, host data go to the down ring as far as it has room; otherwise nothing changes |
| TraceTransport.TraceBuffer.ReceiveHostData | esp-idf/components/app_trace/app_trace.c:504-520 | The host data behind their header are appended to the down ring, as many as it takes in |
| TraceTransport.TraceBuffer.BlockSwitchWait | esp-idf/components/app_trace/app_trace.c:569-580 | Given what the host does during each poll: succeeds if and only if the exposed block is free behind one of the first tmo polls, switches behind the first such poll, and leaves exactly the other polls; if the host reads and acknowledges within k <= tmo polls it succeeds with at least tmo - k left |
| TraceTransport.TraceBuffer.AllocPending | esp-idf/components/app_trace/app_trace.c:665-702 | Pends the message if and only if the pending ring grants the bytes of its user block |
| TraceTransport.TraceBuffer.Wait4Buf | esp-idf/components/app_trace/app_trace.c:665-702 | Succeeds if and only if the host frees the exposed block within the polls and the message then fits the input block with nothing pending or the pending ring grants it; the state is given exactly |
| TraceTransport.TraceBuffer.Write | esp-idf/components/app_trace/app_trace.c:704-809 | A too large message is refused without any change. Any other is placed at once, behind a switch if messages are pending and the host has read the exposed block, exactly when there is room then; otherwise exactly when the host frees the exposed block within the polls and there is room behind the switch; with nothing pending it is never refused if the host reads and acknowledges within the polls. State and log are given exactly |
| TraceTransport.TraceBuffer.Flush | esp-idf/components/app_trace/app_trace.c:811-830 | Terminates and keeps every message; success above the minimum size leaves an empty input block and nothing pending, failure an unread exposed block; it succeeds whenever the host reads and acknowledges during each poll and there is a poll for each block that is still to be shown |
| TraceWait.AcknowledgedIsFree | esp-idf/components/app_trace/app_trace.c:83-101 | Steps that read the whole exposed block and later acknowledge it free it, whatever other steps come before, between and behind them |
| TraceWait.WaitsForHost | esp-idf/components/app_trace/app_trace.c:569-580 | So the first free poll is among the first k if the steps of these read and acknowledge |
| TraceWait.AcceptsExactly | esp-idf/components/app_trace/app_trace.c:704-809 | A message without room at once is accepted if and only if the host frees the exposed block within the polls and there is room behind the switch; with nothing pending there is |
| TraceWait.FirstShows | esp-idf/components/app_trace/app_trace.c:719-723 | With messages pending and the exposed block read, a call shows the input block to the host at once, whatever he then does |
| TraceWait.AcceptedInTime | esp-idf/components/app_trace/app_trace.c:704-809 | With nothing pending, and a host that reads and acknowledges within the polls, every message is accepted |
| TraceWait.FlushedKeeps | esp-idf/components/app_trace/app_trace.c:811-830 | Flushing keeps what has been accepted; it ends with an empty input block and nothing pending, or with an unread exposed block |
| TraceWait.FlushedInTime | esp-idf/components/app_trace/app_trace.c:811-830 | With a host that reads and acknowledges during each poll a flush succeeds that has a poll for each block to be shown |
| TraceWait.DataInTime | esp-idf/components/app_trace/app_trace.c:582-621 | With an empty down ring, data that the host posts behind at most tmo polls are taken in |
| TraceTransport.TraceBuffer.HostRead | esp-idf/components/app_trace/app_trace.c:83-101 | A reading step of the host takes the next bytes of the exposed block and disturbs nothing |
| TraceTransport.TraceBuffer.HostAck | esp-idf/components/app_trace/app_trace.c:83-101 | Clearing the block length acknowledges exactly the exposed block; host data written into it, once the target has taken the former ones, reach only that block and are what the next switch finds |
| TraceTransport.TraceBuffer.HostDo | esp-idf/components/app_trace/app_trace.c:83-101 | A step of the host on the two blocks and the control register is that step on the log and the streams |
| TraceTransport.TraceBuffer.Lossless | esp-idf/components/app_trace/app_trace.c:471-792 | In every state: bytes read by the host, unread rest of the exposed block, input block up to its marker and pending ring, put together, are the accepted user blocks in order of acceptance |
| TraceTransport.TraceBuffer.HostDecodesPrefix | esp-idf/components/app_trace/app_trace.c:102-106 | Between two blocks the host has received whole messages, a prefix of the accepted ones |
| TraceTransport.TraceBuffer.HostData | esp-idf/components/app_trace/app_trace.c:504-520 | In every state the bytes that the target has fetched, followed by those in the down ring, are what the switches have kept of the payloads of the host, in order; they are complete if and only if every payload has found room for all its bytes |
| TraceInflow.HostStream | esp-idf/components/app_trace/app_trace.c:504-621 | The same for the record of payloads alone: each is kept exactly as far as the ring, less what the target had fetched by then, has room; nothing is missing if and only if each finds room, as they do while all together fit the ring |
| TraceTransport.TraceBuffer.DownBufferGet | esp-idf/components/app_trace/app_trace.c:582-621 | Gives the oldest bytes from the host, as many as asked for or up to the end of the data or of the storage, without losing what the ring holds or any message; with anything in the ring, or posted by the host within the polls, it succeeds |
| TraceTransport.PathStream | esp-idf/components/app_trace/app_trace.c:471-830 | Over every path of events and replies the log grows by exactly the messages whose calls have returned success, in order, and the bytes fetched by exactly what the calls have returned |
| TraceTransport.Run | esp-idf/components/app_trace/app_trace.c:471-830 | Every sequence of writes, flushes, reads of host data and host steps, with any host steps during the polls of each call, follows such a path from the first state to the last, with the same messages accepted |
| StaticInit.StepMutex | esp-idf/components/cxx/cxx_guards.cpp:74-212 | Every step of every task keeps the mutex with the one task that is inside a critical section |
| StaticInit.StepTokens | esp-idf/components/cxx/cxx_guards.cpp:74-118 | Every step keeps the count of waiters exact and, while nothing is pending, a token given or promised for each waiter that needs one |
| StaticInit.StepOwner | esp-idf/components/cxx/cxx_guards.cpp:120-212 | Every step keeps pending guards, their owners and the call history in agreement |
| StaticInit.StepInv | esp-idf/components/cxx/cxx_guards.cpp:74-212 | The whole invariant survives every step; ready guards stay ready |
| StaticInit.NoStrandedWaiter | esp-idf/components/cxx/cxx_guards.cpp:74-118 | For any number of tasks and guards and every schedule: the waiting count is the number of tasks in the wait loop, and while no guard is pending and nobody is signalling there is a semaphore token for every waiter yet to take one |
| StaticInit.InitialisedOnce | esp-idf/components/cxx/cxx_guards.cpp:120-212 | For every schedule: the history of each guard is one of wins, each ended by its winner and followed by another win only after an abort; ready and pending never hold together; a guard has at most one owner; the assertions of release and abort hold |
| StaticInit.RunEffects | esp-idf/components/cxx/cxx_guards.cpp:120-212 | From any state, over every schedule: the events of a task are, in order, the calls that it has made: for each release a publication of just that guard, for each abort a return of it, for each acquire a win or a pass, less the call still in progress |
| StaticInit.CallsReturn | esp-idf/components/cxx/cxx_guards.cpp:120-212 | The same from the start, for any number of tasks |
| StaticInit.ReadyMeansReleased | esp-idf/components/cxx/cxx_guards.cpp:182-208 | In every reachable state a guard is ready if and only if some task has called release for it and that call has been carried through; a call of abort never makes it ready |
| StaticInit.DoneForGood | esp-idf/components/cxx/cxx_guards.cpp:160-167 | Behind a completed initialisation the history of a guard holds only calls that returned 0 |
| StaticInit.ReadyForGood | esp-idf/components/cxx/cxx_guards.cpp:160-167 | From any reachable state in which a guard is ready, no schedule makes it unready or lets acquire return 1 for it |
| StaticInit.StepProgress | esp-idf/components/cxx/cxx_guards.cpp:74-212 | Every step inside the library lowers a rank, so without new calls the tasks come to rest |
| StaticInit.RestMeansDone | esp-idf/components/cxx/cxx_guards.cpp:74-118 | At rest the mutex is free and every task is outside or waits for a guard; with no guard pending all are outside, and every pending guard has an owner |
| OtaSelect.Active | esp-idf/components/bootloader_support/src/bootloader_common.c:202-237 | None is selected exactly if no entry is valid, and the selected one is valid with the largest number |
| OtaSelect.ActiveIs | esp-idf/components/bootloader_support/src/bootloader_common.c:38-60 | In the fields of the entries: the selected one has a number other than 0xFFFFFFFF, the right CRC and a state other than 3, invalid, and 4, aborted, and no other such entry has a larger number; none is selected exactly if there is no such entry |
| OtaSelect.AbortedNeverBoots | esp-idf/components/bootloader_support/src/bootloader_common.c:43-46 | An entry marked aborted or invalid never boots: whatever the partition holds, it boots what it would boot with that sector erased |
| OtaSelect.BootIs | esp-idf/components/app_update/esp_ota_ops.c:448-475 | What boots is the slot of any entry with such fields and the largest number, and the default partition if there is none |
| OtaSelect.CrcIsNotErased | esp-idf/components/bootloader_support/src/bootloader_common.c:38-41 | The CRC-32 of a sequence number other than 0 is never the value of an erased field |
| OtaSelect.KnownCrc | esp-idf/components/app_update/otatool.py:147-147 | The CRC of sequence number 1 is 0x4743989A, as the tool for OTA data computes it |
| OtaSelect.GetOtaPartitionCount | esp-idf/components/app_update/esp_ota_ops.c:320-328 | The number of slots without a gap from ota_0 on |
| OtaSelect.FindDefaultBootPartition | esp-idf/components/app_update/esp_ota_ops.c:420-446 | Factory, else the first existing OTA slot, else test, else nothing |
| OtaSelect.NextSeqIsLeast | esp-idf/components/app_update/esp_ota_ops.c:352-364 | The new sequence number is the least one from the active one on that is congruent to x + 1 modulo the slot count |
| OtaSelect.NamesSlot | esp-idf/components/app_update/esp_ota_ops.c:343-357 | A sequence number names slot x if and only if it is congruent to x + 1 |
| OtaSelect.SwitchEnds | esp-idf/components/app_update/esp_ota_ops.c:361-364 | On 32 bits the search ends if and only if the least number from the active one on that is congruent to x + 1 modulo the power of two in the slot count fits in 32 bits; with an odd slot count it always does |
| OtaSelect.SearchFinds | esp-idf/components/app_update/esp_ota_ops.c:361-368 | It finds the least number congruent to x + 1 modulo the slot count if that fits in 32 bits, and a number that names another slot otherwise |
| OtaSelect.FoundSlot | esp-idf/components/app_update/esp_ota_ops.c:361-368 | The slot named by the number found is x less 2^32 for each time the search has wrapped around, modulo the slot count |
| OtaSelect.SearchRunsOn | esp-idf/components/app_update/esp_ota_ops.c:361-364 | With 4 slots, active number 0xFFFFFFFD and target slot 3 the search does not end |
| OtaSelect.TornValid | esp-idf/components/app_update/esp_ota_ops.c:304-318 | A partly written entry is invalid, unless its number is 0, which shows the CRC of an erased field |
| OtaSelect.SwitchBoots | esp-idf/components/app_update/esp_ota_ops.c:330-375 | After a switch the slot named by the number found boots, and the old selection if that number reads as erased; it is slot x if and only if the next number congruent to x + 1 is below 0xFFFFFFFF (and, being 0, still names x) |
| OtaSelect.BootTest | esp-idf/components/app_update/esp_ota_ops.c:377-418 | The call for a test partition, with ota_0 present, returns ESP_OK, and then ota_0 boots |
| OtaSelect.BootErased | esp-idf/components/app_update/esp_ota_ops.c:330-375 | With 4 slots and active number 0xFFFFFFFE the call for ota_2 returns ESP_OK, and ota_1 goes on booting |
| OtaSelect.WrongSlot | esp-idf/components/app_update/esp_ota_ops.c:361-368 | With 7 slots and active number 0xFFFFFFFD, ota_0, a switch to slot 5 makes ota_1 boot |
| OtaSelect.SwitchCrashSafe | esp-idf/components/app_update/esp_ota_ops.c:304-318 | Wherever power fails, before or after the erase or within the write, the old selection or the new one boots, for every sequence number |
| OtaSelect.MarkedInvalid | esp-idf/components/app_update/esp_ota_ops.c:650-689 | With the active entry marked invalid the other entry is selected if valid, and no entry otherwise |
| OtaSelect.MarkedValid | esp-idf/components/app_update/esp_ota_ops.c:650-672 | Confirming the active entry does not change what boots |
| OtaSelect.OtaData.RewriteOtaSeq | esp-idf/components/app_update/esp_ota_ops.c:304-318 | Only the given sector changes, to the entry with its new number and CRC, and every content of the partition on the way is one of the crash images |
| OtaSelect.OtaData.SwitchStep | esp-idf/components/app_update/esp_ota_ops.c:361-364 | The search loop, on 32 bits, finds the first candidate that is not below the active number |
| OtaSelect.OtaData.RewriteOtaData | esp-idf/components/app_update/esp_ota_ops.c:330-375 | The error cases change nothing; on success slot x boots if and only if the next number congruent to x + 1 is below 0xFFFFFFFF, the new entry has state new or, without rollback, undefined, and the other sector stays; every content of the partition on the way boots the old selection or the new one; asked for only where the search ends |
| OtaSelect.OtaData.SetBootPartition | esp-idf/components/app_update/esp_ota_ops.c:377-418 | Success exactly for a verified application partition that is factory or has a slot; afterwards the requested partition boots if and only if it is factory or an OTA slot whose next number is below 0xFFFFFFFF (a test partition never does: the OTA slot with its low four bits does) |
| OtaSelect.OtaData.GetBootPartition | esp-idf/components/app_update/esp_ota_ops.c:448-475 | The slot of an entry with a number, the right CRC, a state neither 3 nor 4 and the largest number among such entries; the default partition if there is none or no slot; and an existing one |
| OtaSelect.OtaData.CheckRollbackIsPossible | esp-idf/components/app_update/esp_ota_ops.c:594-646 | True if and only if marking the active entry invalid would boot an existing partition whose image verifies: that of the other entry if this is valid, and factory otherwise |
| OtaSelect.OtaData.CurrentOtaIsWorkable | esp-idf/components/app_update/esp_ota_ops.c:650-689 | The active entry gets state 2, valid, when confirmed and 3, invalid, when rejected; its number and label and the other sector stay, and its CRC is right; an accepted rollback boots a verified image; a refused one changes nothing; confirming leaves what boots |
| OtaWrite.StoredUnique | esp-idf/components/app_update/esp_ota_ops.c:208-244 | How much of an image lies in flash and how much in memory depends on the image alone, not on the pieces in which it was written |
| OtaWrite.AppendPartial | esp-idf/components/app_update/esp_ota_ops.c:212-230 | Filling the partial block keeps flash followed by the partial bytes equal to the input |
| OtaWrite.AppendBulk | esp-idf/components/app_update/esp_ota_ops.c:232-243 | Writing the whole blocks of the rest and keeping the tail does so too |
| OtaWrite.Session.PartitionWrite | esp-idf/components/app_update/esp_ota_ops.c:208-240 | With encryption every write is a whole number of 16-byte blocks at a block boundary |
| OtaWrite.Session.FillPartial | esp-idf/components/app_update/esp_ota_ops.c:212-230 | Takes what the block lacks, and flushes it when full |
| OtaWrite.Session.Write | esp-idf/components/app_update/esp_ota_ops.c:187-251 | Appends exactly the given bytes to what is stored, unless a flash write fails, or rejects an image that does not begin with the magic byte |
| OtaWrite.Session.WriteAll | esp-idf/components/app_update/esp_ota_ops.c:187-251 | Any sequence of writes succeeds if and only if no flash write fails and the concatenation of the pieces is empty or begins with the magic byte; then flash followed by the partial bytes is that concatenation |
| OtaWrite.Session.End | esp-idf/components/app_update/esp_ota_ops.c:253-302 | Refused exactly when nothing has reached flash; otherwise the input is a prefix of flash, padded to a block by at most 15 bytes |
| CanTransmit.NextValid | esp-idf/components/driver/can.c:445-994 | Every critical section and every action of the hardware keeps the whole invariant, and the assertions of both sides hold |
| CanTransmit.Accounting | esp-idf/components/driver/can.c:445-994 | For every interleaving of one application task with the interrupt handler: the counter is the frame in the buffer plus the queued frames less one not yet counted; the assertions of the next step hold; frames reach the controller in the order of acceptance, all of them and then the queued ones unless there was a stop, a recovery, a clearing or a bus-off; a counted frame never lacks the transmission whose end fetches it |
| CanTransmit.NextLine | esp-idf/components/driver/can.c:445-994 | An action leaves the line of frames handed over and queued as it is, appends a newly accepted one, or drops the foremost or all of the queued ones; without disturbance it drops none |
| CanTransmit.SubseqSkip | esp-idf/components/driver/can.c:790-813 | Dropping queued frames leaves the rest in the order of acceptance |
| CanTransmit.BusOffTakesForemost | esp-idf/components/driver/can.c:844-852 | Behind a stop or bus-off the frame taken out is the foremost one, which leaves the same queue as taking out the frame just put in if and only if all queued frames are equal |
| CanTransmit.ForeignFrame | esp-idf/components/driver/can.c:844-852 | Such a run: of two queued frames the earlier, already counted one is taken out, and the one just refused stays |
| CanTransmit.CanDriver.Transmit | esp-idf/components/driver/can.c:815-843 | A frame goes to an idle controller at once; a stopped, bus-off or listen-only driver refuses it without change; ESP_OK if and only if it is accepted |
| CanTransmit.CanDriver.QueueSent | esp-idf/components/driver/can.c:844-864 | The second critical section is that action: the frame is counted, sent to a controller that has become idle, or, after a stop or bus-off, the foremost one is taken out; both assertions hold |
| CanTransmit.CanDriver.TxInterrupt | esp-idf/components/driver/can.c:445-469 | Neither assertion fires; the next queued frame follows, or the buffer is marked free |
| CanTransmit.CanDriver.ErrorWarnInterrupt | esp-idf/components/driver/can.c:357-392 | The end of a recovery leaves a stopped driver |
| CanTransmit.CanDriver.Stop | esp-idf/components/driver/can.c:790-813 | Stops an active driver and refuses otherwise, as the action does of which `StopSendsNothing` says what it means |
| CanTransmit.StopSendsNothing | esp-idf/components/driver/can.c:790-843 | In every reachable state: behind a stop that has been granted no schedule without a start hands a frame to the controller or accepts one, and the driver stays stopped |
| CanTransmit.RecoverySendsNothing | esp-idf/components/driver/can.c:357-392 | The same behind the end of a bus recovery |
| CanTransmit.StopThenSend | esp-idf/components/driver/can.c:790-843 | On the driver: after a granted stop and any schedule without a start nothing has been sent, and a transmit returns INVALID_STATE, or NOT_SUPPORTED in listen-only mode |
| CanTransmit.RecoverThenSend | esp-idf/components/driver/can.c:357-392 | The same after the end of a recovery |
| CanTransmit.StartSends | esp-idf/components/driver/can.c:766-788 | A start of a stopped driver lets the next frame go to the controller at once |
| CanTransmit.RecoverySends | esp-idf/components/driver/can.c:927-948 | A bus-off driver that has recovered and been started sends the next frame at once |
| CanTransmit.BusOffStays | esp-idf/components/driver/can.c:370-392 | Bus-off lasts until a recovery has ended, and with no call in progress nothing is accepted in it |
| CanTransmit.BusyQueues | esp-idf/components/driver/can.c:833-864 | With the controller busy and room in the queue a frame waits behind the others and nothing is sent |
| CanTransmit.InterruptsSendAll | esp-idf/components/driver/can.c:445-469 | The first k transmit interrupts hand over the first k queued frames, in order |
| CanTransmit.CanDriver.InitiateRecovery | esp-idf/components/driver/can.c:927-948 | Starts recovery from bus-off with an empty queue and a counter of 0, and refuses otherwise |
| CanTransmit.CanDriver.ClearTransmitQueue | esp-idf/components/driver/can.c:981-994 | Empties the queue and keeps the frame in transmission counted |
| CanTransmit.CanDriver.RunSchedule | esp-idf/components/driver/can.c:445-994 | Under every schedule the driver is in the state that the actions lead to |
| RmtRefill.RefilledAgrees | esp-idf/components/driver/rmt.c:642-655 | Each of the three ways of refilling a half yields the next words of the item stream with its end marker |
| RmtRefill.ReadWanted | esp-idf/components/driver/rmt.c:642-660 | The word under the read pointer is the next one of the stream |
| RmtRefill.SeesItems | esp-idf/components/driver/rmt.c:557-661 | Under every interleaving of reading and timely interrupts the transmitter sees the items in order, each once, and stops exactly behind the first word with a zero duration; if no item has one, it has seen all items and the end marker |
| RmtRefill.StepLowers | esp-idf/components/driver/rmt.c:557-661 | Every possible step lowers a measure, and a step is possible until the transmitter has stopped and all interrupts have been served |
| RmtRefill.StepsBounded | esp-idf/components/driver/rmt.c:557-661 | No schedule has more possible steps than twice the number of words |
| RmtRefill.TurnsEnd | esp-idf/components/driver/rmt.c:557-661 | When interrupt and transmitter take turns, as many as there are words, the transmitter has stopped |
| RmtRefill.Channel.WriteItems | esp-idf/components/driver/rmt.c:792-829 | An empty list is refused; otherwise the first fill: a whole block and a count of the rest, or all items with an end marker |
| RmtRefill.Channel.ThresholdIsr | esp-idf/components/driver/rmt.c:617-661 | A threshold interrupt served in time prepares the half after next and disturbs neither the half being read nor what comes next |
| RmtRefill.Channel.WriteHalf | esp-idf/components/driver/rmt.c:642-660 | The half at the offset gets the next words; the other half, the count and the pointer go on in agreement |
| RmtRefill.Channel.FillMemory | esp-idf/components/driver/rmt.c:503-512 | Only the given words change |
| RmtRefill.Channel.Transmit | esp-idf/components/driver/rmt.c:557-661 | For any items, block size and schedule the channel with its memory is in the state that the steps lead to |
| I2cMaster.CmdLink.WriteBytes | esp-idf/components/driver/i2c.c:1036-1061 | Splitting a write into commands of up to 255 bytes keeps its bytes and their order |
| I2cMaster.CmdLink.ReadStatic | esp-idf/components/driver/i2c.c:1077-1099 | Splitting a read keeps its length, its acknowledgement and its consecutive addresses |
| I2cMaster.CmdLink.ReadBytes | esp-idf/components/driver/i2c.c:1117-1137 | A read with LAST_NACK acknowledges all bytes but the last; an empty read is refused |
| I2cMaster.Master.FillTx | esp-idf/components/driver/i2c.c:1200-1215 | The TX FIFO receives the next bytes of the write, at most 32 |
| I2cMaster.Master.StoreReceived | esp-idf/components/driver/i2c.c:1164-1168 | The received bytes are stored in order at consecutive addresses |
| I2cMaster.Master.Drain | esp-idf/components/driver/i2c.c:1164-1175 | The command goes on behind the bytes stored, or the list goes on behind the command |
| I2cMaster.Master.Program | esp-idf/components/driver/i2c.c:1187-1247 | Each batch fits registers and FIFOs, and what it does on the bus together with what is to come behind it is what was to come |
| I2cMaster.EndPlain | esp-idf/components/driver/i2c.c:1237-1246 | The same where the list or the registers end |
| I2cMaster.EndWrite | esp-idf/components/driver/i2c.c:1200-1226 | The same for a write, also in the middle of it |
| I2cMaster.EndRead | esp-idf/components/driver/i2c.c:1227-1236 | The same for a read, also in the middle of it |
| I2cMaster.Master.Round | esp-idf/components/driver/i2c.c:1139-1253 | Every interrupt brings the transfer closer to its end and keeps bus, memory and list in agreement |
| I2cMaster.Master.CmdBegin | esp-idf/components/driver/i2c.c:1272-1341 | For every command list: the read bytes go to the addresses of the list, and the bus sees exactly the operations that the list gives with its repeated and skipped conditions, as a function of the list alone |
| I2cMaster.BusTold | esp-idf/components/driver/i2c.c:1139-1253 | That function tells of each operation whether it is done, repeated or left out: the done and the left out ones are what the list says, the done and the repeated ones what the bus sees, and their numbers are the faults; without faults the bus sees what the list says, and only then unless there are faults of both kinds |
| I2cMaster.StoryBus | esp-idf/components/driver/i2c.c:1139-1253 | What the bus sees, also where conditions lie in the registers already |
| I2cMaster.StoryWanted | esp-idf/components/driver/i2c.c:1139-1253 | What the list says, likewise |
| I2cMaster.StoryFaults | esp-idf/components/driver/i2c.c:1139-1253 | The repeated and left out conditions are as many as counted |
| I2cMaster.UsualFine | esp-idf/components/driver/i2c.c:1139-1253 | Lists in which each read follows a write or a read, with fewer than 15 conditions in a row, have neither |
| I2cMaster.StartRead | esp-idf/components/driver/i2c.c:1227-1236 | A start, a read of up to 32 bytes and a stop: the start is repeated, because the command index is not reset |
| I2cMaster.SixteenthSkipped | esp-idf/components/driver/i2c.c:1164-1186 | Of the conditions behind a read every sixteenth is left out, whatever their number |
| I2cMaster.ReadThenStops | esp-idf/components/driver/i2c.c:1164-1186 | A read and 16 stops: one is left out |
| SdmmcEvents.NextInv | esp-idf/components/driver/sdmmc_transaction.c:259-469 | Every action of the engine, the controller, the interrupt handler and the driver, within its handling of an event too, keeps the whole invariant |
| SdmmcEvents.NextBalance | esp-idf/components/driver/sdmmc_transaction.c:438-447 | The countdown and the processed buffers differ from the buffer count by the releases whose event is on its way, merged or lost |
| SdmmcEvents.NextFed | esp-idf/components/driver/sdmmc_transaction.c:185-235 | Until all buffers are handed over, all descriptors are in use, or a release is announced, or the driver is about to fill all free ones; a suspended engine with work to do is resumed |
| SdmmcEvents.Countdown | esp-idf/components/driver/sdmmc_transaction.c:438-447 | Under every schedule the countdown is never negative, and it is 0 if and only if the engine has processed all buffers, no DMA event is raised, queued or unhandled, no two releases have shared a bit and none is lost; the state behind the data phase is entered only then |
| SdmmcEvents.IdleBehindOver | esp-idf/components/driver/sdmmc_transaction.c:449-463 | The driver returns only behind the end of the data, and so with all buffers processed if the controller announces that end only then |
| SdmmcEvents.ActionLowers | esp-idf/components/driver/sdmmc_transaction.c:259-469 | Every possible action lowers a measure, so each transfer comes to rest |
| SdmmcEvents.ComesToRest | esp-idf/components/driver/sdmmc_transaction.c:259-469 | If no event is lost: when nothing but the end of the data can happen, all buffers have been processed, and the countdown is the number of releases that shared a bit; once that end is announced too, the driver has returned |
| SdmmcEvents.NoneLost | esp-idf/components/driver/sdmmc_host.c:581-602 | A transfer of at most 41 buffers loses no event, under any schedule |
| SdmmcEvents.LostExactly | esp-idf/components/driver/sdmmc_host.c:581-602 | There is a schedule that finds the event queue full if and only if the transfer has more than 41 buffers |
| SdmmcEvents.NeverReturns | esp-idf/components/driver/sdmmc_host.c:581-602 | With 42 buffers the event for the end of the data can be the one lost; but for its timeout, which is not modelled, the driver then does not return, whatever follows |
| SdmmcEvents.TwoInterrupts | esp-idf/components/driver/sdmmc_transaction.c:438-447 | Two releases with an interrupt each, both queued before an event is handled: the countdown reaches 0 |
| SdmmcEvents.OneInterrupt | esp-idf/components/driver/sdmmc_transaction.c:438-453 | Two releases before their interrupt: the countdown stays at 1, and the end of the data ends the transfer |
| SdmmcDma.ChunksTile | esp-idf/components/driver/sdmmc_transaction.c:146-151 | The buffers of a transfer are adjacent, begin at its start, end at its end rounded up to a word, and only the final one is marked as last |
| SdmmcDma.ProgressNext | esp-idf/components/driver/sdmmc_transaction.c:216-232 | What the driver cuts off next is the next of these buffers |
| SdmmcDma.FreeOrOwned | esp-idf/components/driver/sdmmc_transaction.c:185-205 | From the next descriptor on there are first the free descriptors and then those of the engine |
| SdmmcDma.HandOver | esp-idf/components/driver/sdmmc_transaction.c:207-235 | Filling the next descriptor keeps the ring: the latest buffers in ring order, the unprocessed ones owned by the engine |
| SdmmcDma.ReleaseKeeps | esp-idf/components/driver/sdmmc_transaction.c:185-205 | So does the release of the descriptor that the engine owned longest |
| SdmmcDma.DmaRing.EngineRelease | esp-idf/components/driver/sdmmc_transaction.c:216-229 | The engine processes the next buffer of the transfer and goes on to the next descriptor |
| SdmmcDma.DmaRing.FillOne | esp-idf/components/driver/sdmmc_transaction.c:207-235 | The descriptor filled is not owned by the engine, and holds the next buffer; the assertion holds |
| SdmmcDma.DmaRing.FillDescriptors | esp-idf/components/driver/sdmmc_transaction.c:207-235 | Hands over so many further buffers of the transfer, or all that are left, whatever the engine releases in between |
| SdmmcDma.DmaRing.GetFreeDescriptorsCount | esp-idf/components/driver/sdmmc_transaction.c:185-205 | A number between those free at the beginning and those free at the end, while the engine goes on releasing |
| SdmmcDma.DmaRing.TakeEvent | esp-idf/components/driver/sdmmc_transaction.c:392-469 | The state machine of process_events up to the first look at a descriptor: unhandled bits join the event, the countdown goes down by one for a DMA bit, and the data phase ends at 0 or with the end of the data |
| SdmmcDma.DmaRing.HandleEvent | esp-idf/components/driver/sdmmc_transaction.c:259-279 | One event is handled to the end, in step with the schedule |
| SdmmcDma.DmaRing.Transfer | esp-idf/components/driver/sdmmc_transaction.c:126-171 | Sizes and addresses that DMA cannot use are refused; otherwise, under every schedule of engine, controller, interrupts and driver, also within the loops of the driver, the whole is in the state that the actions lead to, and what the engine has processed are the first buffers of the transfer in order |
| SplitArgv.WriteSplit | esp-idf/components/console/split_argv.c:41-120 | Any arguments, empty ones included, written in quotes or, unless empty, with escapes, and joined with spaces, are what splitting the line gives back |
| SplitArgv.SplitTruncated | esp-idf/components/console/split_argv.c:50-118 | With room for fewer pointers the arguments are the first ones of those found with more room |
| SplitArgv.FeedPieces | esp-idf/components/console/split_argv.c:74-102 | The pieces of an argument, inside quotes or outside, come out as what they mean: a backslash gives a backslash, quote or space behind it, and with any other character both are dropped |
| SplitArgv.SplitLine | esp-idf/components/console/split_argv.c:50-118 | Every line built from arguments with or without quotes, with any spaces between them, and with a last argument that may lack its second quote or end in a backslash, is split into what its pieces mean, up to the limit; an argument in quotes needs no space behind it |
| SplitArgv.EveryLine | esp-idf/components/console/split_argv.c:50-118 | And every line is built in this way |
| SplitArgv.Switch | esp-idf/components/console/split_argv.c:57-102 | The switch writes what the tokenizer adds, for all five states |
| SplitArgv.Scan | esp-idf/components/console/split_argv.c:50-107 | The output pointer never passes the input pointer, and the memory before it is the packed arguments |
| SplitArgv.PackedStrings | esp-idf/components/console/split_argv.c:33-39 | The pointers into packed memory name the arguments as zero-terminated strings |
| SplitArgv.SplitInPlace | esp-idf/components/console/split_argv.c:41-120 | The in-place loop gives the arguments of the tokenizer, at most argv_size - 1, and a null pointer behind them |
| SplitArgv.LineNulFree | esp-idf/components/console/split_argv.c:41-120 | The line written for arguments without a zero byte has none |
| SplitArgv.SplitWritten | esp-idf/components/console/split_argv.c:41-120 | A line written for some arguments and split in memory with enough pointers: each pointer names its argument as a zero-terminated string, and a null pointer follows |
| BtMemory.GoesIdle | esp-idf/components/bt/bt.c:961-971 | A region becomes idle in a call if and only if it is handed over in it |
| BtMemory.HandedCover | esp-idf/components/bt/bt.c:973-996 | The runs of adjacent eligible regions, from the first region of each to its last, contain exactly the addresses of the eligible regions, as often as these do |
| BtMemory.CallConserves | esp-idf/components/bt/bt.c:947-996 | What a call hands over and what stays in use is what was in use |
| BtMemory.CallsConserve | esp-idf/components/bt/bt.c:947-996 | Over any calls what leaves the regions in use goes to the heap, each address once |
| BtMemory.HeapNoOverlap | esp-idf/components/bt/bt.c:947-996 | If no regions overlap, no two ranges that the heap receives in any calls do |
| BtMemory.LostInCalls | esp-idf/components/bt/bt.c:955-971 | Over any calls every region loses the same modes, those of the calls at which the first region still has one of them |
| BtMemory.FirstLoses | esp-idf/components/bt/bt.c:955-971 | The first region loses every mode asked for while the controller is idle |
| BtMemory.BleThenClassic | esp-idf/components/bt/bt.c:951-996 | Releasing BLE and then Classic BT gives the heap the same addresses as one BTDM release if and only if the controller is not idle, the first region has both modes or none, or all regions with a mode that the first one lacks are empty |
| BtMemory.ClassicStays | esp-idf/components/bt/bt.c:951-996 | A table for which it does not: the second call is refused because the first region is idle by then |
| BtMemory.Controller.MemRelease | esp-idf/components/bt/bt.c:947-996 | Refused without change unless the controller is idle and the first region has one of the modes; otherwise the table loses exactly these modes, and the heap receives one range for each run of adjacent eligible regions, from its first region to its last, in order |
| BtMemory.Controller.ReleaseRegions | esp-idf/components/bt/bt.c:961-996 | The loop hands over exactly these ranges |
| BtMemory.ReleaseAll | esp-idf/components/bt/bt.c:947-996 | Any sequence of calls does what the calls one after the other do, and returns which of them were refused |
| BtMemory.ReleaseBoth | esp-idf/components/bt/bt.c:947-996 | The three calls on two controllers in the same state: the heaps agree under the condition above, and only then |
| BtMemory.EligibleIsUsedBefore | esp-idf/components/bt/bt.c:961-971 | The eligible regions and what stays in use are what was in use |
| LedcFade.StepsFit | esp-idf/components/driver/ledc.c:508-510 | The programmed steps stay within the distance, are at most 1023, and use the distance up to less than a step unless they are 1023 |
| LedcFade.Channel.SetFadeWithStep | esp-idf/components/driver/ledc.c:587-624 | The first run starts at the current duty, below the maximum, goes toward the target and does not pass it; with no whole step the target is set directly |
| LedcFade.Channel.FadeIsr | esp-idf/components/driver/ledc.c:475-535 | Ends the fade at the target; else programs a run that does not pass it and covers at least one step, or sets the target |
| LedcFade.Channel.Ramp | esp-idf/components/driver/ledc.c:152-169 | The hardware run visits only duties between its start and the target |
| LedcFade.Channel.Fade | esp-idf/components/driver/ledc.c:475-624 | Set-up and interrupts together terminate at exactly the target, and every duty on the way lies between start and target |
| SdspiCrc.TableIsByteStep | esp-idf/components/driver/sdspi_crc.c:19-37 | Each of the 256 table entries is the bit-serial remainder of its index |
| SdspiCrc.TableStep | esp-idf/components/driver/sdspi_crc.c:44-44 | The table index stays below 256, and the look-up does what eight bit steps do |
| SdspiCrc.Crc7 | esp-idf/components/driver/sdspi_crc.c:40-47 | For messages of every length the table-driven CRC is the bit-serial remainder modulo x^7 + x^3 + 1 |
| SdspiCrc.CheckLeavesNothing | esp-idf/components/driver/sdspi_crc.c:40-47 | A message followed by seven bits leaves no remainder if and only if they are its CRC |

## Left out

- Application tracing: post-mortem mode and a host that is not connected, the copy of the control register of
  the other core, calls that never finish filling their buffer, pending sizes of at most one block or above
  two blocks, and SystemView.
- TraceTransport.TraceBuffer.Write: get, fill and put are one event, and the lock is taken without a timeout.
- TraceTransport.TraceBuffer.DownBufferGet: the lock is not modelled; in the source a timeout returns with it taken.
- TraceTransport.TraceBuffer.BlockSwitchWait: a timeout is a number of polls, with the host's steps between two polls
  given; an infinite timeout, and elapsed time on counter wrap, are not modelled.
- TraceTransport.TraceBuffer.constructor: takes the storage of the rings as given objects.
- TraceTransport.TraceBuffer.BlockSwitch: block number and marker are updated together at the end, not one by
  one between the copies; the whole switch is a critical section.
- StaticInit: the functions are modelled as transitions of values, not as a class, because each one is cut at
  its blocking points; the path before the scheduler starts, the lazy creation of the semaphores, and a
  semaphore count beyond the range of its type are left out.
- OtaSelect.OtaData.RewriteOtaData: says nothing about a search that does not end; `OtaSelect.SwitchEnds` says
  when that is.
- OtaSelect.SwitchCrashSafe: erasing a sector is atomic, and until the CRC field is reached it reads as erased.
- OtaSelect.OtaData.SetBootPartition: a power failure between the two erased sectors of a change to factory is
  not covered; flash operations do not fail; anti-rollback is off.
- OtaSelect.OtaData.CurrentOtaIsWorkable: no claim about a power failure, since the active entry is rewritten
  in place.
- OtaWrite.Session.Write: nothing is promised about a session after a failed flash write; the look-up of the
  handle and esp_ota_begin's checks are not modelled, and the partition counts as erased as a whole.
- OtaWrite.Session.End: whether the image verifies is a parameter.
- CAN: several application tasks, reception, alerts, bit timing, filters, the formatting of frames, and
  installing and removing the driver.
- CanTransmit.CanDriver.BusOffInterrupt: the controller may or may not abort the frame that it is sending.
- RMT: translated samples, reception, and threshold interrupts that come too late: the transmitter waits for
  the driver before it reads a half that has not been refilled.
- I2C: the linked list is a sequence, and the command with the data pointer a command with the remaining
  bytes; slave mode, acknowledgement errors, timeouts, arbitration loss and clearing the bus are left out.
- I2cMaster.Master.RunBatch: the controller carries out a batch up to its END command or, if it has none, up
  to the last command written, and raises one interrupt then; a stop does not end it earlier.
- SDMMC: command responses and errors, data errors, timeouts, start-bit errors, card-detect and SDIO interrupts,
  and waiting for the card behind the data.
- SdmmcDma.DmaRing.FillOne: the fields of a descriptor are written in one step, since C does not order the
  writes to them.
- SdmmcEvents.Next: the interrupt handler reads and clears both status registers in one step.
- SplitArgv.SplitInPlace: argv_size is at least 1.
- BtMemory.Controller.MemRelease: the extra BSS and data sections of the BTDM mode are left out, and a region
  too small for the heap counts as handed over.
- LEDC: the choice of scale and cycle number in ledc_set_fade_with_time, the fade semaphores, and several
  channels in one interrupt.
- LedcFade.Channel.Ramp: the ramp of the hardware is its documented behaviour, steps of the programmed scale.
- SdspiCrc: the CRC-16 of data blocks, computed by the ROM.
- The register wrappers (GPIO, MCPWM, PCNT, I2S, RTC module, SDMMC host) and the Python tools are not modelled.
