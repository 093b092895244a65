# Verified models of ESP8266 RTOS SDK algorithms

Dafny models of eleven algorithms of the SDK, with proofs of what they promise.  One module
follows one source file; state that the source updates in place is a class whose `Valid()` is the
invariant of every run, and each method is proved against an abstract meaning of that state.

| modules | what is modelled |
|---|---|
| `RingLayout`, `RingItems`, `ItemRing`, `RingRuns` | ring buffers with in-band headers, without and with splitting, as a first-in first-out queue whose items stay in place until returned in any order.  Pointers are offsets from an aligned base, the header has 8 bytes, the alignment is a parameter (the port uses 4; 8 is covered as well) |
| `CircularBytes`, `ByteRing` | the byte-buffer discipline as a bounded byte queue |
| `EventTrace`, `EventLoop` | the event loop's tree of loop, base and id nodes against a flat log of registrations |
| `NorFlash`, `OtaSelect` | boot-slot selection by sequence numbers on two flash sectors, with every intermediate flash content |
| `SectorBuffer`, `WearLevel` | erasing a byte range when FAT sectors are smaller than flash sectors, with the word-addressed buffer for what shares a flash sector with the range |
| `Scheduler` | the dependency loop of the build front end |
| `SpiRamFifo` | one writer and one reader on a FIFO in external RAM: a mutex, two binary semaphores, all interleavings |
| `SplitArgv` | splitting a console line in place |
| `Pthread` | create, join, detach and exit as steps on the thread list |
| `PartitionLayout`, `PartitionBinary` | laying out and checking a partition table; its binary form |
| `WsFrame` | WebSocket framing (RFC 6455, sections 5.2 and 5.3) |
| `Vfs` | path lookup and the descriptor table |
| `Bytes`, `Arith` | bytes, little-endian words, in-place writes; a few facts on products |

`dafny verify dfyconfig.toml` checks everything.

## What the proofs found

The models keep the code as it is.  Where a natural claim about it is false, the condition under
which it holds is proved instead:

- Ring buffer: when the buffer is completely full and completely read, the first return clears the
  full flag although other items are still held (`ItemRing.RingBuffer.ReturnItem`, an if and only
  if); a later send then writes over an item still held (`RingRuns.HeldItemOverwritten`).
- Ring buffer: the size queries report the maximum although nothing fits, because a negative int is
  compared with an unsigned limit: when the gap in front of the free pointer is shorter than a
  header, and with splitting also when the free space wraps and is shorter than two headers.  With
  splitting they are too small by up to a header when the wrapped front part is shorter than one.
  `GetCurMaxSizeNoSplit` and `GetCurMaxSizeAllowSplit` say exactly when they are right;
  `RingRuns.NoSplitQueryWrong`, `RingRuns.AllowSplitQueryWrong` and
  `RingRuns.AllowSplitQueryTooSmall` are runs into such states.
- Ring buffer: sizes below one or two headers make the unsigned maximum wrap around, so that items
  larger than the storage are within it; `ItemRing.AdvertisedFits` says exactly when, and
  `RingRuns.TooLargeAdmitted` is a buffer of 8 bytes that lets 100 in.
- Event loop: registering the same handler again may store it twice (`EventLoop.Loop.Register`);
  `EventLoop.RegisteredTwice` is a run after which an event runs a handler twice.  That takes
  registrations of different levels: with one level only it never happens (`EventLoop.RunOfLevel`).
- Boot slot: choosing the factory image erases sector by sector and can boot a third slot in
  between (`OtaSelect.FactoryResetHalfway`, `OtaSelect.FactoryResetBootsOlder`); a sequence number
  of zero defeats the search for the last slot (`OtaSelect.ZeroSeqForLastSlot`,
  `OtaSelect.ZeroSeqOfThree`); a switch whose next number is the erased value reports success
  although the old choice still boots (`OtaSelect.OtaData.SetBootSlot`).
- Wear levelling: FAT sectors that are to survive are saved at word offsets, so that they overwrite
  each other in the buffer unless their size is a multiple of four or at most two fit a flash sector
  (`WearLevel.RangeExactIff`, an if and only if; `WearLevel.FirstSectorLost` is a case).
- SPI-RAM FIFO: the two sides cannot block each other for any storage size, however small, because
  a chunk never crosses the end of the storage (`SpiRamFifo.NoDeadlock`).
- Threads: only joins in pairs are refused; a circle of three is accepted
  (`Pthread.Pthreads.JoinInACircle`).  No member of a circle is ever woken: every operation keeps
  circles, and in every state their members wait unnotified (`Pthread.Pthreads.CircleWaits`).  An
  accepted join closes a circle exactly if the joined thread already waits for the caller through
  others (`Pthread.JoinClosesCircle`).
- Partition table: a size given as an end address below its own offset comes out negative and lets
  rows of the layout overlap (`PartitionLayout.NegativeSizeOverlaps`,
  `PartitionLayout.LayoutOfEndAddresses`).  The check of the table refuses every overlap, negative
  sizes included (`PartitionLayout.VerifiedIsDisjoint`), so such a layout only survives where the
  check is switched off with `--no-verify`.  The reported flash size misses a row behind an empty
  one at the same offset (`PartitionLayout.FlashSizeCovers`), and can lie below the whole table if
  the last row has a negative size (`PartitionLayout.FlashSizeBelowTable`).
- WebSocket: the mask index starts again with every read (`WsFrame.PieceUnmasked`), the key of an
  empty masked frame is taken for the next header (`WsFrame.EmptyMaskedFrameMisread`), and a failed
  read in mid-frame forgets the rest of the frame (`WsFrame.WsTransport.NextPiece`), which loses the
  stream if no other frame follows (`WsFrame.FrameForgotten`, `WsFrame.LastFrameLost`); with one
  behind, the stream can survive by chance (`WsFrame.StreamCanSurvive`).
- File systems: a permanent descriptor can be registered for a slot that is no longer occupied
  (`Vfs.VfsSwitch.RegisterFd`, `Vfs.FdOfFreedSlot`).

The header comment of the split function promises pointers to at most `argv_size - 1` arguments,
which the code keeps.  For the ring buffer the comment on the no-split limit calls the halfway point
the worst case; `RingItems.MaxItemExact` confirms it for alignments 4 and 8.

## Model

| member | source | states |
|---|---|---|
| RingLayout.HeaderRoundTrip | components/esp_ringbuf/ringbuf.c:37-41 | the 8-byte header in front of an item (length, free, dummy and split flag) is read back as written |
| RingLayout.HeaderLayout | components/esp_ringbuf/ringbuf.c:33-41 | the length is the first word of the header and the flags are 1, 2 and 4 in the second |
| RingLayout.NextPosValid | components/esp_ringbuf/ringbuf.c:232-239 | the position after a slot is aligned and has room for a header: a tail shorter than a header is skipped and belongs to the slot before it |
| RingLayout.PosInjective | components/esp_ringbuf/ringbuf.c:143-158 | two pointers of the layout coincide only as the two ends of a completely full buffer, which is what the full flag tells apart |
| RingLayout.SlotsDisjoint | components/esp_ringbuf/ringbuf.c:205-292 | headers and payloads of two different slots never overlap, however the content wraps |
| RingLayout.LayoutAppend | components/esp_ringbuf/ringbuf.c:205-240 | placing a slot that fits at the write pointer keeps headers tiling the region from the free to the write pointer, the stored bytes of all other slots, the full flag and the count |
| RingLayout.LayoutAdvance | components/esp_ringbuf/ringbuf.c:336-372 | moving the read pointer over one slot keeps the layout and counts the part as no longer waiting |
| RingLayout.LayoutMark | components/esp_ringbuf/ringbuf.c:412-430 | rewriting the header of a read slot as free changes no other slot, neither header nor payload |
| RingLayout.LayoutDrop | components/esp_ringbuf/ringbuf.c:433-453 | moving the free pointer over read slots leaves the layout of the remaining ones, with nothing stored twice or lost |
| RingItems.SplitLeavesRest | components/esp_ringbuf/ringbuf.c:249-271 | an item is only split if both parts are non-empty, and the first part fills the tail exactly |
| RingItems.NewSlotsCarryItem | components/esp_ringbuf/ringbuf.c:205-292 | the slots a send adds stand for exactly the one item sent, whole or in two non-empty parts whose concatenation is the item; without splitting always whole |
| RingItems.WholeItems | components/esp_ringbuf/ringbuf.c:205-240 | without split parts the items of a log are its parts one by one, and the first of them are the first items |
| RingItems.FitsExact | components/esp_ringbuf/ringbuf.c:160-186 | each branch of the admission test holds if and only if the item, with padding, dummy or second header, fits the free region |
| RingItems.MaxItemFits | components/esp_ringbuf/ringbuf.c:687-701 | an item up to the advertised maximum fits an empty buffer at every aligned write position |
| RingItems.MaxItemExact | components/esp_ringbuf/ringbuf.c:687-701 | the advertised maximum is exact: a size is within it if and only if it fits an empty buffer at every write position |
| RingItems.WorstPos | components/esp_ringbuf/ringbuf.c:687-701 | for every larger size there is a write position at which an empty buffer cannot take it |
| RingItems.MaxItemUnderflows | components/esp_ringbuf/ringbuf.c:687-701 | the sizes for which the unsigned maximum wraps around, exactly |
| RingItems.QueueGrows | components/esp_ringbuf/ringbuf.c:744-783 | a send appends one item to the queue and leaves every pointer held by the application alone |
| RingItems.CopyKeepsLayout | components/esp_ringbuf/ringbuf.c:205-292 | storing an admitted item, in one piece, split, or behind a dummy, keeps the layout and never passes the free pointer |
| RingItems.ReturnTarget | components/esp_ringbuf/ringbuf.c:412-430 | a pointer that is held leads to the header of exactly one read slot in use |
| RingItems.HeldMark | components/esp_ringbuf/ringbuf.c:426-430 | returning a pointer removes that pointer, and only that one, from those held |
| RingItems.HeldDrop | components/esp_ringbuf/ringbuf.c:433-453 | dropping slots that nobody holds changes nothing held |
| RingItems.ReleaseStep | components/esp_ringbuf/ringbuf.c:433-453 | one turn of the free-pointer loop passes one free or dummy slot and leaves every later slot stored |
| RingItems.ReleaseDone | components/esp_ringbuf/ringbuf.c:433-461 | where the free pointer comes to rest the layout holds again, and it rests at the first part still in use or at the read pointer |
| RingItems.Lapped | components/esp_ringbuf/ringbuf.c:435-461 | free and read pointer coincide behind a read slot only in a completely full, completely read buffer; clearing the full flag there breaks the layout |
| RingItems.EmptyPointersHoldNothing | components/esp_ringbuf/ringbuf.c:143-158 | pointers that read as empty are right only if nothing is stored or held |
| RingItems.HeldPartOverwritten | components/esp_ringbuf/ringbuf.c:205-240 | an item written over a slot of another length destroys its header |
| RingItems.FullyReadWitness | components/esp_ringbuf/ringbuf.c:412-461 | a 32-byte buffer with two read items of 8 bytes is full and completely read with both outstanding |
| RingItems.LargestExact | components/esp_ringbuf/ringbuf.c:477-534 | a size fits now if and only if it is at most the largest gap computed from the two pointers |
| ItemRing.AdvertisedFits | components/esp_ringbuf/ringbuf.c:687-701 | every size within the advertised maximum fits the storage if and only if the storage has room for the headers; otherwise sizes beyond the whole storage are within the maximum |
| ItemRing.RingBuffer.constructor | components/esp_ringbuf/ringbuf.c:655-711 | a new no-split or allow-split buffer of the rounded-up size is empty, for every size; it is well-formed if and only if the storage has room for the headers the maximum subtracts |
| ItemRing.RingBuffer.HeldBytes | components/esp_ringbuf/ringbuf.c:412-461 | in every reachable state a pointer handed out and not returned still points at the bytes that were sent |
| ItemRing.RingBuffer.GetFreeSize | components/esp_ringbuf/ringbuf.c:143-158 | the free size is the storage not used between free and write pointer |
| ItemRing.RingBuffer.CheckItemFits | components/esp_ringbuf/ringbuf.c:160-186 | the admission test answers exactly whether the item has room |
| ItemRing.RingBuffer.PutPart | components/esp_ringbuf/ringbuf.c:222-234 | writes header, payload and padding of one part and moves the write pointer, skipping a tail too short for a header |
| ItemRing.RingBuffer.PutDummy | components/esp_ringbuf/ringbuf.c:214-220 | marks the rest of the storage as dummy data and wraps the write pointer |
| ItemRing.RingBuffer.CopyItemNoSplit | components/esp_ringbuf/ringbuf.c:205-240 | the bytes, pointers, flag and count after a copy are those of placing the slots of the item in turn |
| ItemRing.RingBuffer.CopyItemAllowSplit | components/esp_ringbuf/ringbuf.c:242-292 | the same for an item that may be split at the end of the storage |
| ItemRing.RingBuffer.GetCurMaxSizeNoSplit | components/esp_ringbuf/ringbuf.c:477-505 | the size reported is within the maximum, and the sizes a send accepts now are exactly those up to it, if and only if the gap before the free pointer is not shorter than a header; otherwise it reports the maximum although nothing fits |
| ItemRing.RingBuffer.GetCurMaxSizeAllowSplit | components/esp_ringbuf/ringbuf.c:507-534 | the size reported is within the maximum; exactly when the sizes a send accepts now are those up to it; by how much it is too small when the free space wraps behind a short front part, and that it reports the maximum when the wrapped space is shorter than two headers |
| ItemRing.RingBuffer.Send | components/esp_ringbuf/ringbuf.c:744-783 | a send succeeds if and only if the item is within the maximum and has room; then it is the new last item of the queue, and no stored or held byte has changed |
| ItemRing.RingBuffer.CheckItemAvail | components/esp_ringbuf/ringbuf.c:324-334 | something is available exactly if a part is waiting |
| ItemRing.RingBuffer.SkipDummy | components/esp_ringbuf/ringbuf.c:347-353 | a dummy at the read pointer is skipped without losing a part |
| ItemRing.RingBuffer.TakePart | components/esp_ringbuf/ringbuf.c:354-371 | hands out payload address, length and split flag and moves the read pointer behind the part |
| ItemRing.RingBuffer.GetItem | components/esp_ringbuf/ringbuf.c:336-372 | hands out the oldest waiting part in place, with its bytes unchanged, and the pointer was not outstanding before |
| ItemRing.RingBuffer.ReceivedInOrder | components/esp_ringbuf/ringbuf.c:555-595 | in every reachable state of a no-split buffer the items received are a prefix of the items sent and the next part is the next item |
| ItemRing.RingBuffer.Receive | components/esp_ringbuf/ringbuf.c:555-595 | receiving takes the first waiting part, if any, and adds its pointer to those held; without splitting it is the next item in send order, so that the items received are always a prefix of those sent |
| ItemRing.RingBuffer.ReceiveSplit | components/esp_ringbuf/ringbuf.c:879-912 | both parts of a split item are received together and concatenate to the next item in send order; the second part is not empty and lies at the start |
| ItemRing.RingBuffer.StepFree | components/esp_ringbuf/ringbuf.c:436-453 | one turn of the loop moves the free pointer to the next header |
| ItemRing.RingBuffer.AdvanceFree | components/esp_ringbuf/ringbuf.c:433-453 | the loop terminates and stops exactly at the first part still in use or at the read pointer |
| ItemRing.RingBuffer.ReturnItem | components/esp_ringbuf/ringbuf.c:412-462 | items may be returned in any order; the buffer stays sound if and only if it was not completely full and read with another item outstanding; nothing else held or waiting changes |
| ItemRing.ReturnedState | components/esp_ringbuf/ringbuf.c:433-461 | what the free-pointer loop and the full-flag test leave behind, in both cases |
| ItemRing.TailFollows | components/esp_ringbuf/ringbuf.c:580-587 | behind the first part of a split item waits its second part, at the start of the storage |
| ItemRing.ReceivedItem | components/esp_ringbuf/ringbuf.c:879-912 | what one receive of one or two parts delivers is the next item of the queue |
| RingRuns.HeldItemOverwritten | components/esp_ringbuf/ringbuf.c:412-461 | a run of two sends, two receives, one return and a third send that puts its bytes where those of an item still held were |
| RingRuns.NoSplitQueryWrong | components/esp_ringbuf/ringbuf.c:477-505 | a run after which the no-split query reports 12 although no item fits |
| RingRuns.AllowSplitQueryWrong | components/esp_ringbuf/ringbuf.c:507-534 | one unread item after which the allow-split query reports 16 although no item fits |
| RingRuns.AllowSplitQueryTooSmall | components/esp_ringbuf/ringbuf.c:507-534 | one unread item after which the allow-split query reports 4 although 12 bytes fit |
| RingRuns.TooLargeAdmitted | components/esp_ringbuf/ringbuf.c:160-186 | a buffer of 8 bytes whose maximum and admission test let an item of 100 bytes in |
| CircularBytes.WriteAppends | components/esp_ringbuf/ringbuf.c:294-322 | a write in one or two pieces behind the content appends to it and leaves its first bytes alone |
| CircularBytes.CircularSplit | components/esp_ringbuf/ringbuf.c:374-410 | content taken off the front is a prefix, and the rest starts where it ends |
| ByteRing.ByteBuffer.constructor | components/esp_ringbuf/ringbuf.c:655-721 | a new byte buffer of any size from 1 on is empty |
| ByteRing.ByteBuffer.ReceivedIsPrefix | components/esp_ringbuf/ringbuf.c:374-410 | everything received is a prefix of everything sent, and the waiting count is the difference |
| ByteRing.ByteBuffer.CheckItemFits | components/esp_ringbuf/ringbuf.c:188-203 | the byte-buffer test holds if and only if the size is at most the true free space |
| ByteRing.ByteBuffer.CopyItem | components/esp_ringbuf/ringbuf.c:294-322 | the bytes go behind the content, wrapping at most once, and the full flag is set exactly when the buffer is full |
| ByteRing.ByteBuffer.Send | components/esp_ringbuf/ringbuf.c:744-783 | a send is all or nothing and appends exactly its bytes to the stream |
| ByteRing.ByteBuffer.CheckItemAvail | components/esp_ringbuf/ringbuf.c:324-334 | data is available if and only if nothing is outstanding and a byte is stored |
| ByteRing.ByteBuffer.Receive | components/esp_ringbuf/ringbuf.c:374-410 | a receive delivers the next contiguous bytes of the stream, as many as are asked for, stored, or left before the end |
| ByteRing.ByteBuffer.ReturnItem | components/esp_ringbuf/ringbuf.c:464-475 | a return frees exactly the bytes of the outstanding retrieval |
| ByteRing.ByteBuffer.GetCurMaxSize | components/esp_ringbuf/ringbuf.c:536-553 | the size query reports the free bytes |
| EventTrace.MatchingWithout | components/esp_event/esp_event.c:712-745 | removing a registration from the log removes exactly its calls from every dispatch |
| EventTrace.MatchingRearmed | components/esp_event/esp_event.c:166-176 | overwriting an argument in the log overwrites it in every dispatch |
| EventLoop.HandlerInstancesAdd | components/esp_event/esp_event.c:162-193 | a new handler goes last; a handler already in the list keeps its place and gets the new argument |
| EventLoop.HandlerInstancesRemove | components/esp_event/esp_event.c:296-309 | the handler, if present, leaves the list and nothing else changes |
| EventLoop.BaseNodeAddHandler | components/esp_event/esp_event.c:195-242 | adding to a base node appends one call for the events it matches, or rearms it |
| EventLoop.LoopNodeAddHandler | components/esp_event/esp_event.c:244-294 | choosing or creating a base node keeps dispatch order: the new call comes last for every event it matches; with registrations of one level only, no base gets a second node |
| EventLoop.BaseNodeRemoveHandler | components/esp_event/esp_event.c:312-335 | removal from a base node cuts out exactly that call; it is reported as found if and only if the handler is held and, below an event id, the list of that id has become empty |
| EventLoop.LoopNodeRemoveHandler | components/esp_event/esp_event.c:337-360 | removal from a loop node, with emptied base nodes dropped, cuts out exactly that call |
| EventLoop.HeldInLoopRuns | components/esp_event/esp_event.c:534-562 | a handler found by a repeated registration is one that dispatch runs |
| EventLoop.SomethingRuns | components/esp_event/esp_event.c:733-741 | a non-empty tree runs something for some event, so no empty node is left behind |
| EventLoop.Loop.constructor | components/esp_event/esp_event.c:411-498 | a new loop has no registrations and runs nothing |
| EventLoop.Loop.Register | components/esp_event/esp_event.c:648-710 | dispatch stays equal to filtering the flat log of registrations, for every event; a repeated registration is stored twice exactly if it does not reach the list that has it, and where there are only registrations of its level it always reaches it: the argument is overwritten if and only if the log has the handler |
| EventLoop.Loop.AddNode | components/esp_event/esp_event.c:677-702 | where a new loop node is made, the new call comes last and the log gets one entry |
| EventLoop.Loop.AddToLast | components/esp_event/esp_event.c:703-705 | in the last loop node, the new call comes last or the argument is overwritten |
| EventLoop.TargetIffInLog | components/esp_event/esp_event.c:244-294 | with at most one loop node, one node for each base, and nothing below the level of the registration, it reaches a list that has the handler if and only if the log has it |
| EventLoop.RunOfLevel | components/esp_event/esp_event.c:648-745 | any run of registrations and removals of a single level never stores a repetition: the log is the one in which repetitions overwrite |
| EventLoop.Loop.Unregister | components/esp_event/esp_event.c:712-745 | the registration leaves the log and every dispatch, the log stays free of repetitions, and no base has two nodes if none had before |
| EventLoop.Loop.NoLeftovers | components/esp_event/esp_event.c:733-741 | when nothing is registered, no node is left |
| EventLoop.Loop.Dispatch | components/esp_event/esp_event.c:530-569 | dispatching an event runs exactly the registered matching handlers, once each, in registration order |
| EventLoop.ExecuteAll | components/esp_event/esp_event.c:536-539 | one list is run in order |
| EventLoop.DispatchBase | components/esp_event/esp_event.c:541-560 | base-level handlers run before those of the first node with the id |
| EventLoop.DispatchLoop | components/esp_event/esp_event.c:534-562 | loop-level handlers run before the base nodes, which run in order |
| EventLoop.RepeatMissesEarlierHandler | components/esp_event/esp_event.c:195-242 | a concrete tree in which a repeated registration misses the handler it repeats |
| EventLoop.TargetInLog | components/esp_event/esp_event.c:166-176 | what a repeated registration finds in the list it reaches is in the log |
| EventLoop.RegisteredTwice | components/esp_event/esp_event.c:648-710 | a run of three registrations after which one event runs a handler twice |
| NorFlash.AndErased | components/app_update/esp_ota_ops.c:307-311 | an erased byte takes any value when programmed |
| NorFlash.AndBitwise | components/wear_levelling/WL_Ext_Perf.cpp:96-96 | programming clears exactly the bits that are clear in the data |
| NorFlash.ProgramErased | components/wear_levelling/WL_Ext_Perf.cpp:93-99 | programming erased flash stores exactly the data |
| OtaSelect.SelectRoundTrip | components/bootloader_support/include/esp_flash_data_types.h:30-34 | the 32-byte selection record is read back as written |
| OtaSelect.SelectLayout | components/bootloader_support/include/esp_flash_data_types.h:30-34 | number, label and checksum lie at 0, 4 and 28 of the record, numbers lowest byte first, written and read alike |
| OtaSelect.TargetSeqSelects | components/app_update/esp_ota_ops.c:385-412 | the number written selects the requested slot, is the least such number not below the deciding one, and exceeds it by less than the number of slots |
| OtaSelect.ZeroSeqForLastSlot | components/app_update/esp_ota_ops.c:386-389 | with a deciding number of zero the search for the last slot stops at zero, which is right if and only if the number of slots divides 2^32 |
| OtaSelect.ZeroSeqOfThree | components/app_update/esp_ota_ops.c:386-389 | with three slots and a deciding number of zero, a switch to the last slot boots the first |
| OtaSelect.InterruptedSwitch | components/app_update/esp_ota_ops.c:300-316 | whatever is left in the sector being rewritten, an invalid checksum there boots the old choice and a valid number not below the old one boots its slot |
| OtaSelect.TornRecord | components/app_update/esp_ota_ops.c:300-316 | a partly written record is invalid or already carries the full number |
| OtaSelect.TornNoSeq | components/app_update/esp_ota_ops.c:295-298 | a record that carries the erased value as its number never passes the validity test, however much of it is written |
| OtaSelect.ErasedInvalid | components/app_update/esp_ota_ops.c:295-298 | an erased record never passes the validity test |
| OtaSelect.OneTornBoots | components/app_update/esp_ota_ops.c:300-316 | the flash with any number of bytes of the new record written boots the old choice or the new slot |
| OtaSelect.SwitchesStayInRange | components/app_update/esp_ota_ops.c:385-412 | over any sequence of switches the number grows by less than the slot count each time and always selects the slot requested last |
| OtaSelect.FactoryResetHalfway | components/app_update/esp_ota_ops.c:443-449 | between its two sector erasures the factory reset boots the old choice or the default if and only if the second sector is empty, decides, or selects the same slot |
| OtaSelect.FactoryResetBootsOlder | components/app_update/esp_ota_ops.c:443-449 | for any checksum, numbers 3 and 2 boot slot 2 of four, and a factory reset cut off halfway boots slot 1 |
| OtaSelect.SwitchBoots | components/app_update/esp_ota_ops.c:385-412 | when the number of a switch decides, the requested slot boots if and only if the number before was not zero, the slot is not the last, or the slots divide 2^32 |
| OtaSelect.OtaData.EraseSector | components/app_update/esp_ota_ops.c:307-307 | erases one sector and nothing else |
| OtaSelect.OtaData.ProgramRecord | components/app_update/esp_ota_ops.c:311-311 | programs the record byte by byte over erased flash; every intermediate content is recorded |
| OtaSelect.OtaData.RewriteOtaSeq | components/app_update/esp_ota_ops.c:300-316 | afterwards the new number decides, or the old one if the new number is the erased value; if no torn number passes the checksum, every flash content on the way boots as before or already boots the new number |
| OtaSelect.OtaData.GetBootPartition | components/app_update/esp_ota_ops.c:500-562 | the boot choice is the slot of the largest valid number, or the default if none is valid |
| OtaSelect.OtaData.SearchSeq | components/app_update/esp_ota_ops.c:387-389 | the counting loop terminates at the first candidate not below the given number, while candidates have 32 bits |
| OtaSelect.OtaData.SetBootSlot | components/app_update/esp_ota_ops.c:328-417 | afterwards the requested slot boots, if and only if it is not the one case of a number of zero; when the number to write is the erased value the call succeeds and the old choice still boots; if no torn number passes the checksum, an interruption at any write leaves a flash that boots the old choice or the new one; a slot number out of range changes nothing |
| OtaSelect.OtaData.SetBootFactory | components/app_update/esp_ota_ops.c:443-449 | choosing the factory image leaves nothing valid, after one intermediate content |
| WearLevel.ExtPerf.Read | components/wear_levelling/WL_Ext_Perf.cpp:86-86 | copies flash into the sector buffer |
| WearLevel.ExtPerf.Write | components/wear_levelling/WL_Ext_Perf.cpp:96-96 | programs the buffer content into flash, clearing bits only |
| WearLevel.ExtPerf.EraseFlashSector | components/wear_levelling/WL_Ext_Perf.cpp:91-91 | erases one flash sector and counts it |
| WearLevel.ExtPerf.SaveOthers | components/wear_levelling/WL_Ext_Perf.cpp:84-89 | saves every FAT sector of the flash sector that is not to be erased, in turn, at its offset rounded down to a word |
| WearLevel.ExtPerf.RestoreOthers | components/wear_levelling/WL_Ext_Perf.cpp:94-99 | writes them back from there in turn |
| WearLevel.ExtPerf.EraseSectorFit | components/wear_levelling/WL_Ext_Perf.cpp:75-101 | for any sizes the flash is what the two loops make of it; if the places of the saved FAT sectors do not overlap, exactly the FAT sectors asked for that lie in the flash sector are erased and every other byte keeps its value; the sector is erased once |
| WearLevel.ExtPerf.EraseFlashSectors | components/wear_levelling/WL_Ext_Perf.cpp:155-162 | erases a run of whole flash sectors, once each |
| WearLevel.ExtPerf.PlanPieces | components/wear_levelling/WL_Ext_Perf.cpp:129-147 | first, middle and last piece follow each other and make up the range |
| WearLevel.ExtPerf.ErasePieces | components/wear_levelling/WL_Ext_Perf.cpp:149-167 | the three pieces are erased in turn; exactly the range is, if FAT sectors are whole words or a flash sector has at most two of them |
| WearLevel.ExtPerf.EraseRange | components/wear_levelling/WL_Ext_Perf.cpp:103-168 | for any sizes the flash is what the pieces make of it and each overlapped flash sector is erased exactly once; if FAT sectors are whole words or a flash sector has at most two of them, exactly the requested bytes are erased and every other byte is unchanged; misaligned or empty ranges change nothing |
| SectorBuffer.SlotFacts | components/wear_levelling/WL_Ext_Perf.cpp:86-86 | a FAT sector is saved at its offset rounded down to a word, which is the offset itself if FAT sectors are whole words |
| SectorBuffer.SavedIntact | components/wear_levelling/WL_Ext_Perf.cpp:84-89 | if no two places overlap, every saved FAT sector is in the buffer when the loop ends |
| SectorBuffer.WrittenBackRestores | components/wear_levelling/WL_Ext_Perf.cpp:94-99 | writing intact FAT sectors back leaves the others erased and every byte outside unchanged |
| SectorBuffer.FittedExact | components/wear_levelling/WL_Ext_Perf.cpp:75-101 | if no two places overlap, exactly the FAT sectors asked for are erased |
| SectorBuffer.FittedLoses | components/wear_levelling/WL_Ext_Perf.cpp:75-101 | if two places overlap, a content is given of which a byte that should survive is lost |
| SectorBuffer.FittedExactIff | components/wear_levelling/WL_Ext_Perf.cpp:75-101 | erasing within a flash sector is exact for every content if and only if no two saved FAT sectors overlap in the buffer |
| WearLevel.RangeExactIff | components/wear_levelling/WL_Ext_Perf.cpp:103-168 | erase_range is exact for every range and content if and only if the FAT sector size is a multiple of four or a flash sector has at most two FAT sectors |
| WearLevel.RangeLoses | components/wear_levelling/WL_Ext_Perf.cpp:103-168 | otherwise erasing the last FAT sector of the first flash sector loses a byte, for a content that is given |
| WearLevel.FirstSectorLost | components/wear_levelling/WL_Ext_Perf.cpp:84-99 | FAT sectors of 2 bytes, a flash sector of 8 holding 1 to 8: erasing the last FAT sector leaves 3, 4, 3, 4, 5, 6 |
| WearLevel.PlanFacts | components/wear_levelling/WL_Ext_Perf.cpp:129-147 | how the range divides into part of a flash sector, whole sectors, and part of a sector |
| WearLevel.OverlapIff | components/wear_levelling/WL_Ext_Perf.cpp:103-168 | the sectors erased are those the range overlaps |
| WearLevel.SectorNumberingExact | components/wear_levelling/WL_Ext_Perf.cpp:48-48 | the address arithmetic finds the right flash sector for every FAT sector if and only if the FAT sector size divides the flash sector size |
| Scheduler.TasksDict | tools/idf.py:842-842 | the dictionary maps each queued name to a queued task of that name |
| Scheduler.LastTaskWins | tools/idf.py:842-842 | of several queued tasks of a name the dictionary has the last one |
| Scheduler.MoveToFront | tools/idf.py:868-868 | moves the first such task to the front and keeps all others in order |
| Scheduler.AddDependencies | tools/idf.py:848-864 | every missing hard dependency is queued under a new identity, the last one first, in front of the old queue; ready means exactly that all have run |
| Scheduler.AdvanceDependencies | tools/idf.py:866-869 | moves each queued order dependency that has not run to the front in turn, the queue being a permutation of the old one; ready means exactly that all those queued have run |
| Scheduler.OthersStay | tools/idf.py:866-869 | the tasks that are not moved keep their order |
| Scheduler.LastNamedFirst | tools/idf.py:866-869 | of the order dependencies that are moved the last one comes first |
| Scheduler.LaterFirst | tools/idf.py:848-864 | of two missing hard dependencies the later one is queued in front of the other |
| Scheduler.TurnKeepsOrder | tools/idf.py:840-883 | a turn takes the front task off, or puts new tasks in front and leaves all that it does not move in order |
| Scheduler.AheadTurn | tools/idf.py:840-883 | a turn of an action that does not name y leaves x in front of y or runs x |
| Scheduler.TakeTurn | tools/idf.py:840-883 | the loop body is one step of the state machine, and runs the front action exactly if its hard dependencies and its queued order dependencies have run and it has not |
| Scheduler.NamesStay | tools/idf.py:848-883 | what is queued stays queued until it has run |
| Scheduler.TurnRuns | tools/idf.py:876-883 | a turn that runs an action does so after all its hard dependencies and after every order dependency queued at any time before |
| Scheduler.Popped | tools/idf.py:872-883 | a task leaves the queue only with its hard dependencies done, which keeps the completed set closed |
| Scheduler.Requeued | tools/idf.py:848-870 | what is queued is only what the request needs |
| Scheduler.ExecuteTasks | tools/idf.py:833-883 | terminates; its trace goes step by step from the request to the empty queue; it runs each action at most once and exactly the hard-dependency closure of the request, each in the turn named, after its hard dependencies and after its order dependencies that were queued at that turn or any turn before; what no needed action names runs after everything requested in front of it |
| SpiRamFifo.Chunk | components/spi_ram/spi_ram_fifo.c:56-64 | a chunk is not longer than the data, 64 bytes, or the storage left, equals one of them, and is not empty unless the data or the storage left is |
| SpiRamFifo.Start | components/spi_ram/spi_ram_fifo.c:215-246 | a fresh FIFO satisfies the invariant |
| SpiRamFifo.StoreKeepsConsistent | components/spi_ram/spi_ram_fifo.c:77-88 | the data move of a write appends the chunk to the content and keeps positions and fill count in step |
| SpiRamFifo.FetchKeepsConsistent | components/spi_ram/spi_ram_fifo.c:125-137 | the data move of a read takes the chunk off the front of the content |
| SpiRamFifo.WriterKeepsWakeup | components/spi_ram/spi_ram_fifo.c:68-91 | a step of the writer loses no wake-up of either side |
| SpiRamFifo.ReaderKeepsWakeup | components/spi_ram/spi_ram_fifo.c:116-139 | a step of the reader loses no wake-up of either side |
| SpiRamFifo.WriterKeepsInv | components/spi_ram/spi_ram_fifo.c:48-94 | every step of the writer keeps the invariant, whatever the reader is doing |
| SpiRamFifo.ReaderKeepsInv | components/spi_ram/spi_ram_fifo.c:96-142 | every step of the reader keeps the invariant, whatever the writer is doing |
| SpiRamFifo.DeliveredInOrder | components/spi_ram/spi_ram_fifo.c:48-142 | for every interleaving: write position is read position plus fill count modulo the size, and bytes read, bytes stored and bytes to be written make up the data sent |
| SpiRamFifo.NoDeadlock | components/spi_ram/spi_ram_fifo.c:48-142 | in no reachable state do both sides wait on empty semaphores, for any storage size |
| SpiRamFifo.StuckExactly | components/spi_ram/spi_ram_fifo.c:48-142 | nothing can move if and only if both sides are finished, or one is and the other lacks bytes or space |
| SpiRamFifo.StepWorks | components/spi_ram/spi_ram_fifo.c:48-142 | every step uses up work, so no run goes on for ever |
| SpiRamFifo.RunKeepsStream | components/spi_ram/spi_ram_fifo.c:48-142 | no run loses, repeats or reorders a byte |
| SpiRamFifo.RoundsFinish | components/spi_ram/spi_ram_fifo.c:48-142 | every fair run of that length has come to rest |
| SpiRamFifo.FairRunsDeliver | components/spi_ram/spi_ram_fifo.c:48-142 | whatever the call sizes and the storage, every fair run ends with the side finished that has no more to do than the other; what is read is a prefix of what is written, fewer than 64 bytes stay behind when the reader asks for more, and equal totals are delivered in full |
| SplitArgv.Split | components/console/split_argv.c:34-120 | the meaning of a line: at most the given number of arguments |
| SplitArgv.SplitOfLine | components/console/split_argv.c:34-120 | a line written from a list of words, quoted or escaped, splits into that list, cut off at the number of arguments there is room for |
| SplitArgv.WrittenLineSplitsBack | components/console/split_argv.c:34-120 | any list of fewer than argv_size NUL-free strings written into a buffer is what the split finds there |
| SplitArgv.ArgumentOfEscape | components/console/split_argv.c:74-102 | an escaped argument up to its end mark is read back |
| SplitArgv.BackslashPair | components/console/split_argv.c:74-102 | a backslash keeps a backslash, quote or blank as a character; with any other character it vanishes together with it |
| SplitArgv.QuotedThenMore | components/console/split_argv.c:74-83 | a quoted argument ends at its quote, whatever follows |
| SplitArgv.StepContinues | components/console/split_argv.c:57-103 | one character of the state machine is one unfolding of the meaning of the line |
| SplitArgv.PutKeepsMemory | components/console/split_argv.c:105-108 | output never overtakes input, so the unread line is not overwritten |
| SplitArgv.PackedHolds | components/console/split_argv.c:50-54 | each argument is a C string at its own offset of the packed buffer |
| SplitArgv.SplitCharacter | components/console/split_argv.c:48-108 | one input character puts out at most one character and ends at most one argument |
| SplitArgv.FinishHolds | components/console/split_argv.c:110-117 | the final NUL and the last argument complete the table |
| SplitArgv.ScanLine | components/console/split_argv.c:43-109 | the loop keeps arguments found, current argument and unread line together equal to the split of the line |
| SplitArgv.EspConsoleSplitArgv | components/console/split_argv.c:34-120 | in place, yet equal to the pure split of the line as it was on entry: count, every argument as a C string, the final NULL, and nothing else changed |
| Pthread.InvCreate | components/pthread/pthread.c:303-310 | a new descriptor and task keep the invariant of the thread list |
| Pthread.InvJoinWait | components/pthread/pthread.c:348-355 | becoming the joiner keeps the invariant, in particular that no two threads wait for each other |
| Pthread.InvDelete | components/pthread/pthread.c:132-136 | deleting an unjoined descriptor keeps the invariant |
| Pthread.InvJoinEnd | components/pthread/pthread.c:370-374 | the joiner deleting its thread keeps the invariant |
| Pthread.InvDetach | components/pthread/pthread.c:401-404 | detaching a running thread keeps the invariant |
| Pthread.InvExit | components/pthread/pthread.c:434-444 | exiting with a value keeps the invariant |
| Pthread.WaiterIsSafe | components/pthread/pthread.c:364-375 | in every reachable state the descriptor a task waits for is still listed, nobody else waits for it, and the task is woken exactly when the thread has exited, with its value in place |
| Pthread.JoinerFinds | components/pthread/pthread.c:366-372 | the woken joiner finds its own descriptor |
| Pthread.NobodyWaitsInPairs | components/pthread/pthread.c:344-352 | no two threads ever wait to join each other, and none waits for itself |
| Pthread.NeverNotified | components/pthread/pthread.c:434-444 | no member of a circle of waiting tasks has been notified, in any valid state |
| Pthread.CirclesCons | components/pthread/pthread.c:303-310 | a creation keeps every circle |
| Pthread.CirclesChange | components/pthread/pthread.c:344-444 | a change of one thread that keeps its handle and the joiner it has keeps every circle |
| Pthread.CirclesWithout | components/pthread/pthread.c:132-136 | deleting a thread that nobody waits for, or whose joiner has been woken, keeps every circle |
| Pthread.ReachesIsCircle | components/pthread/pthread.c:344-356 | a task that waits for itself, directly or through others, is in a circle |
| Pthread.JoinClosesCircle | components/pthread/pthread.c:344-356 | a join closes a circle through the caller if and only if the joined thread already waits for the caller, directly or through others |
| Pthread.Pthreads.constructor | components/pthread/pthread.c:81-92 | no threads at the start |
| Pthread.Pthreads.FindDesc | components/pthread/pthread.c:94-125 | finds a listed descriptor |
| Pthread.Pthreads.FindTask | components/pthread/pthread.c:94-130 | finds the descriptor of a task |
| Pthread.Pthreads.Delete | components/pthread/pthread.c:132-136 | unlinks and frees one descriptor; creations and deletions of every address stay balanced |
| Pthread.Pthreads.Create | components/pthread/pthread.c:303-315 | the descriptor goes to the front of the list |
| Pthread.Pthreads.JoinBegin | components/pthread/pthread.c:321-362 | accepts a join if and only if the thread is joinable, unjoined, not the caller and not waiting for the caller; takes a finished thread at once with the value it exited with; a join that waits closes a circle if and only if the thread already waits for the caller through others; joins and circles of others stay |
| Pthread.Pthreads.JoinEnd | components/pthread/pthread.c:364-375 | the woken joiner receives the value passed to exit and deletes exactly its own descriptor and task |
| Pthread.Pthreads.Detach | components/pthread/pthread.c:385-413 | detaches a running thread or deletes a finished one; refuses a detached or joined one without any change |
| Pthread.Pthreads.Exit | components/pthread/pthread.c:415-450 | a detached thread is deleted; any other leaves its value and wakes its joiner |
| Pthread.Pthreads.JoinInACircle | components/pthread/pthread.c:344-356 | three threads told to join each other in a circle are all accepted and are a circle then, none of them notified |
| Pthread.Pthreads.CircleWaits | components/pthread/pthread.c:364-375 | in every valid state a member of a circle waits and has not been notified; as every operation keeps circles, it never will be |
| PartitionLayout.RoundUp | components/partition_table/gen_esp32part.py:127-130 | the least multiple not below the given address |
| PartitionLayout.FixUp | components/partition_table/gen_esp32part.py:116-135 | the pass in place: rows up to the first overlap are placed, later ones untouched, and the error is the one reported |
| PartitionLayout.RowPlaced | components/partition_table/gen_esp32part.py:118-133 | a given offset is kept and lies behind what comes before; an open one becomes the least aligned address behind it; a negative size makes the row end at that address |
| PartitionLayout.LayoutIsDisjoint | components/partition_table/gen_esp32part.py:116-135 | a layout with sizes of at least zero is in order, above the table and pairwise disjoint |
| PartitionLayout.LayoutOfEndAddresses | components/partition_table/gen_esp32part.py:116-135 | the resulting sizes are at least zero if and only if every end address lies at or behind the place of its row, and then the layout is disjoint |
| PartitionLayout.NegativeSizeOverlaps | components/partition_table/gen_esp32part.py:131-133 | rows the pass accepts although a size came out negative and two rows overlap; the later check of the table refuses them |
| PartitionLayout.SortAscends | components/partition_table/gen_esp32part.py:197-197 | the sorted table is in order of offset |
| PartitionLayout.VerifyRows | components/partition_table/gen_esp32part.py:345-361 | every offset, and in secure mode every size, is a multiple of the alignment of its type |
| PartitionLayout.AlignmentByType | components/partition_table/gen_esp32part.py:253-256 | the alignment checked is 4096 bytes for application partitions and 4 for all others |
| PartitionLayout.PlacedByType | components/partition_table/gen_esp32part.py:126-130 | an open offset becomes the least one behind the row before that is a multiple of 4096 for applications and of 4 for others |
| PartitionLayout.NamesAreUnique | components/partition_table/gen_esp32part.py:183-194 | no name occurs twice |
| PartitionLayout.Verify | components/partition_table/gen_esp32part.py:178-202 | the verdict is good if and only if rows are aligned, names unique, offsets above the table, and neighbours in offset order do not overlap; of several errors it names the first in this order |
| PartitionLayout.VerifiedIsDisjoint | components/partition_table/gen_esp32part.py:195-202 | the check of neighbours makes the whole table pairwise disjoint, in any order and whatever the sizes |
| PartitionLayout.DisjointIsChained | components/partition_table/gen_esp32part.py:195-202 | the check refuses no table of non-empty, pairwise disjoint rows |
| PartitionLayout.FlashSize | components/partition_table/gen_esp32part.py:204-212 | the size is the end of the first row, in table order, among those with the largest offset |
| PartitionLayout.FlashSizeCovers | components/partition_table/gen_esp32part.py:204-212 | on a verified table whose last row has no negative size, the reported size covers every row if and only if that row is not an empty one beside a non-empty one |
| PartitionLayout.FlashSizeMissesARow | components/partition_table/gen_esp32part.py:204-212 | a verified table whose reported size leaves out a row |
| PartitionLayout.FlashSizeBelowTable | components/partition_table/gen_esp32part.py:204-212 | a verified table with a last row of negative size whose reported size lies below every row |
| PartitionBinary.NameRoundTrip | components/partition_table/gen_esp32part.py:379-381 | a name comes back unchanged if and only if it has at most 16 bytes and no NUL |
| PartitionBinary.PartRoundTrip | components/partition_table/gen_esp32part.py:370-402 | a record unpacks to the row it was packed from, with its stored name |
| PartitionBinary.PackedLayout | components/partition_table/gen_esp32part.py:394-402 | the packed record byte by byte: magic, type, subtype, offset at 4 and size at 8 lowest byte first, name at 12 cut or padded with NULs, flags at 28 |
| PartitionBinary.UnpackedLayout | components/partition_table/gen_esp32part.py:370-391 | any record with the magic, and no other, is read from the same places; the name ends at the first NUL |
| PartitionBinary.RecordOfNvs | components/partition_table/gen_esp32part.py:394-402 | the 32 bytes of one row |
| PartitionBinary.BinaryLayout | components/partition_table/gen_esp32part.py:234-241 | the binary table byte by byte: row k at 32 k, then the MD5 record with the digest of all rows, then 0xFF |
| PartitionBinary.ParsedLayout | components/partition_table/gen_esp32part.py:215-232 | rows read from any binary without an MD5 record are those at multiples of 32 in front of an end marker |
| PartitionBinary.ParseParts | components/partition_table/gen_esp32part.py:215-232 | packed rows are read back in order, then reading goes on behind them |
| PartitionBinary.BinaryRoundTrip | components/partition_table/gen_esp32part.py:214-241 | packing succeeds if and only if every field fits and there is room for the end marker; unpacking then returns the table, entry for entry if and only if all names fit, with or without the MD5 record, for any hash |
| PartitionBinary.WrongDigestRefused | components/partition_table/gen_esp32part.py:224-228 | a table with a digest of other rows is refused |
| PartitionBinary.FromBinary | components/partition_table/gen_esp32part.py:215-232 | the reading loop computes the meaning of the binary, errors included |
| WsFrame.XorCancels | components/tcp_transport/transport_ws.c:245-247 | masking a byte with two keys gives it back if and only if the keys agree |
| WsFrame.XorBitwise | components/tcp_transport/transport_ws.c:245-247 | a bit of a masked byte is set exactly where byte and key differ |
| WsFrame.MaskedBits | components/tcp_transport/transport_ws.c:245-247 | payload byte i has exactly those bits inverted that are set in key byte i mod 4 |
| WsFrame.MaskedTwice | components/tcp_transport/transport_ws.c:258-263 | masking twice with the same key is the identity |
| WsFrame.PieceUnmasked | components/tcp_transport/transport_ws.c:316-318 | a piece unmasked from the start of the key is the payload piece if and only if the key lines up with its position |
| WsFrame.KeyFitsWhen | components/tcp_transport/transport_ws.c:316-318 | the key lines up at multiples of four and for unmasked frames |
| WsFrame.HeaderRoundTrip | components/tcp_transport/transport_ws.c:218-243 | parsing an encoded header gives back opcode, mask flag, length and key; the payload follows at once, unless the frame is masked and empty |
| WsFrame.FrontLayout | components/tcp_transport/transport_ws.c:218-238 | opcode, mask bit and length as bytes: seven bits, or 126 and two bytes, or 127 and eight bytes, highest byte first |
| WsFrame.HeaderLayout | components/tcp_transport/transport_ws.c:218-243 | the key stands behind them, if there is one |
| WsFrame.HeaderOf300 | components/tcp_transport/transport_ws.c:218-243 | the header of a masked text frame of 300 bytes |
| WsFrame.AnnouncedIsRead | components/tcp_transport/transport_ws.c:343-371 | the length read from any header is the number in its seven bits, two bytes or eight bytes, highest byte first, as long as it is below 2^31 |
| WsFrame.FrontIsShortest | components/tcp_transport/transport_ws.c:220-238 | no header announcing the length is shorter |
| WsFrame.WireFront | components/tcp_transport/transport_ws.c:343-386 | what parsing finds in front of a well-formed frame |
| WsFrame.MaskBuffer | components/tcp_transport/transport_ws.c:245-247 | masks the first bytes of a buffer in place and no others |
| WsFrame.PieceTaken | components/tcp_transport/transport_ws.c:293-321 | taking a piece leaves the rest of the payload and the frames behind it on the wire |
| WsFrame.FrameForgotten | components/tcp_transport/transport_ws.c:403-409 | once the rest of a frame is forgotten and no other frame follows, every way to explain the bytes on the wire by frames has fewer payload bytes to come, so the stream is lost |
| WsFrame.WireLonger | components/tcp_transport/transport_ws.c:218-238 | frames take at least two bytes more than their payloads |
| WsFrame.StreamCanSurvive | components/tcp_transport/transport_ws.c:403-409 | with a frame behind, bytes and headers can fall together so that the misread stream is the one sent |
| WsFrame.LastFrameLost | components/tcp_transport/transport_ws.c:403-409 | a run in which a failed read leaves a byte on the wire that no frames explain |
| WsFrame.KeyMisfit | components/tcp_transport/transport_ws.c:316-318 | a key that does not line up at position 1 |
| WsFrame.EmptyMaskedFrameMisread | components/tcp_transport/transport_ws.c:373-379 | after an empty masked frame the next header is read from its key |
| WsFrame.WsTransport.constructor | components/tcp_transport/transport_ws.c:452-477 | a new transport has nothing to read |
| WsFrame.WsTransport.WsHeader | components/tcp_transport/transport_ws.c:218-238 | builds the front of the header byte by byte |
| WsFrame.WsTransport.HeaderOut | components/tcp_transport/transport_ws.c:218-252 | builds the header, masks the payload in place and sends as much of the header as is taken |
| WsFrame.WsTransport.PayloadOut | components/tcp_transport/transport_ws.c:257-266 | sends the masked payload and gives the caller back the bytes it had |
| WsFrame.WsTransport.WsWrite | components/tcp_transport/transport_ws.c:205-267 | sends header and masked payload and restores the buffer of the caller, which stays masked exactly if the header could not be sent in full; when everything is taken, what is sent is one whole frame with the bytes of the caller as payload |
| WsFrame.WsTransport.WsReadHeader | components/tcp_transport/transport_ws.c:325-389 | parses any header that has arrived: the length is the number its bytes are, highest byte first, extended and oversized lengths included |
| WsFrame.WsTransport.WsReadPayload | components/tcp_transport/transport_ws.c:293-321 | reads at most the room given, unmasks in place and counts down |
| WsFrame.WsTransport.NextFrame | components/tcp_transport/transport_ws.c:396-401 | beginning a frame keeps the stream of payload bytes |
| WsFrame.WsTransport.NextPiece | components/tcp_transport/transport_ws.c:403-409 | delivers the next piece of the payload if and only if the key lines up; a failed or empty read takes nothing from the wire and forgets the rest of the frame, and unless another frame follows the payload stream is lost |
| WsFrame.WsTransport.WsRead | components/tcp_transport/transport_ws.c:391-413 | reads of any sizes concatenate to the payload stream, for unmasked frames and for pieces at multiples of four; a read that fails in mid-frame loses it as described for a piece |
| Vfs.LongestIsUnique | components/vfs/vfs.c:293-331 | with distinct prefixes only one registered prefix is the longest that covers a path |
| Vfs.CoversIff | components/vfs/vfs.c:293-331 | a prefix covers a path if it is empty, is the path, or is followed by a separator there |
| Vfs.TranslatePath | components/vfs/vfs.c:283-291 | prefix and translated path make up the path, and the file system sees a path that starts with a separator |
| Vfs.VfsSwitch.constructor | components/vfs/vfs.c:70-73 | no file systems and no descriptors at the start |
| Vfs.VfsSwitch.Register | components/vfs/vfs.c:75-118 | takes the first free slot under a fresh registration number; refuses malformed prefixes and a full table without any change |
| Vfs.VfsSwitch.Unregister | components/vfs/vfs.c:172-198 | frees the first slot with the prefix and every descriptor that refers to it, and no other |
| Vfs.VfsSwitch.GetVfsForPath | components/vfs/vfs.c:293-331 | returns a slot with the longest registered prefix that ends at a separator or at the end of the path, the empty prefix last, and none only if no prefix covers the path |
| Vfs.VfsSwitch.GetVfsForFd | components/vfs/vfs.c:262-270 | a used descriptor resolves to a live slot, under the registration it was opened on |
| Vfs.VfsSwitch.Open | components/vfs/vfs.c:379-409 | the lowest unused descriptor is bound to the slot found for the path; each failure has its error and leaves the table as it was |
| Vfs.VfsSwitch.Close | components/vfs/vfs.c:451-468 | releases a descriptor unless it is permanent |
| Vfs.VfsSwitch.RegisterFd | components/vfs/vfs.c:200-224 | a permanent descriptor keeps the table sound if and only if the slot is still occupied |
| Vfs.FdOfFreedSlot | components/vfs/vfs.c:200-224 | a run that registers a descriptor for a slot already freed |

## Left out

- RingItems.MaxItemExact: says nothing for sizes for which the unsigned maximum wraps around (`RingItems.MaxItemUnderflows`); what such a buffer does after it has admitted an item larger than its storage is not modelled.
- ByteRing.ByteBuffer.constructor: sizes below 2^31, as the waiting count is a signed int.
- ItemRing.RingBuffer.Send, ItemRing.RingBuffer.Receive: one pass of the critical section; blocking, semaphores, ticks, queue sets and the interrupt variants are not modelled.
- ItemRing.RingBuffer.ReturnItem: the pointer must be one that is held; the code only asserts some of this.
- ByteRing.ByteBuffer.ReturnItem: the retrieval outstanding is the one returned, as the code assumes.
- EventLoop.Loop.Register, EventLoop.Loop.Unregister: nodes are values in sequences, so node addresses and in-place links are not captured; handlers that register or unregister during a dispatch, posting, queueing and profiling are not modelled.
- EventLoop.Loop.Register, EventLoop.Loop.Unregister: stated for loops that hold no repetition yet; `EventLoop.Loop.Register` says exactly when a repetition arises.
- OtaSelect.OtaData.SetBootSlot, OtaSelect.OtaData.SearchSeq: the intermediate contents are vouched for if the checksum of the first one, two or three bytes of the number, completed by erased bytes, is not the erased word; CRC-32 itself is a parameter.  The number to write has 32 bits; a search that wraps around is not modelled.
- OtaSelect.OtaData.SetBootSlot: the slot is the subtype modulo 16, as in the code, so the subtype of the test application stands for slot 0.
- OtaSelect.OtaData.GetBootPartition: the search for the partition itself and the default partition are not modelled.
- OtaSelect.OtaData.SetBootFactory: two sectors erased in order; a larger partition erases further sectors without meaning.
- WearLevel.ExtPerf.EraseRange: the flash layer below is a byte array with erase to 0xFF and programming that clears bits; its own wear levelling and its errors are not modelled.  The FAT sector size divides the flash sector size (`WearLevel.SectorNumberingExact` shows why); it need not be a multiple of four.
- Scheduler.ExecuteTasks: dependencies are acyclic and named canonically; option handling, aliases, printing and what an action does are not modelled.
- SpiRamFifo.DeliveredInOrder: waits have no timeout (a timeout gives the mutex a second time), one writer and one reader, a non-empty storage, and lengths that are not negative; the transfer to the RAM chip is one step under the mutex.
- SplitArgv.EspConsoleSplitArgv: `argv_size` is at least 1; the code subtracts 1 from it without a check.
- Pthread.Pthreads.Create: task creation, start notification, attributes and thread-local storage are not modelled; addresses and tasks come fresh from their allocators but may be reused later.
- Pthread.Pthreads.JoinEnd: nobody else notifies the waiting task; the deletion of the joined task belongs to the same step.
- PartitionLayout.FixUp: starts from parsed rows; CSV text, variables and number formats are not modelled.
- PartitionLayout.FlashSizeCovers: the last row has no negative size; `PartitionLayout.FlashSizeBelowTable` shows what happens otherwise.
- PartitionLayout.Verify: warnings about names are not modelled.
- PartitionBinary.BinaryRoundTrip: names are held encoded; decoding of text and warnings about unknown flags are not modelled.  The hash is any function to 16 bytes.
- WsFrame.WsTransport.WsReadHeader: header reads are complete, plain `char` is unsigned as on the target, and the mask key does not pass through the buffer of the caller; connecting and the handshake are not modelled.
- WsFrame.FrameForgotten: when frames follow the one cut off, only a bound on what can be read is stated, because the stream may survive.
- Vfs.VfsSwitch.Open: lookup, the call of the file system and the binding of the descriptor are one step; locks, the other calls, select, poll and the registration of descriptor ranges are not modelled.
- Allocation failure is not modelled anywhere.
