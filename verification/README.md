# mgw in Dafny

A model of the concurrent and byte-level core of mgw, a media gateway, with proofs of what it keeps.

- **Reorder buffer** (`SortSpec`, `SortInv`, `SortKeeps`, `SortRun`, `SortExact`, `SortCases`, `SortLists`, `SortBuffer`). Frames
  arrive out of order and leave in time order. They are kept in one byte arena by a wrapping allocator that never splits
  a frame, and in two linked lists: by time and by address. `SortSpec` is the step function on values, `SortKeeps.PutKept` shows what
  one step keeps, `SortExact` says in the code's own numbers what each put answers, `SortRun` is about whole runs, and `SortBuffer` is the object itself, with its arena and nodes changed
  in place, proved to do what the step function says.
- **Frame ring** (`RingSpec`, `RingInv`, `RingCover`, `RingRun`, `RingExact`, `RingCases`, `FrameRing`). One writer, a ring of slots
  over a ring of bytes, and readers that can be overtaken and have to resume on a key frame. `FrameRing` has the arrays and loops.
- **Pipeline** (`Pipeline`, `PipelineSizes`). Packets through the reorder buffer into the ring and out to a reader.
- **Control messages** (`Wire`, `Messages`, `MessageBytes`, `MessageObjects`). Serializers, sizes, parse loops and merges of
  the nested messages with their oneof, byte by byte as `message/resources/mgw.proto` numbers them, on the wire format of the Protocol Buffers Encoding specification ("Base 128 Varints",
  "Length-Delimited Records", "Last One Wins").
- **SRT re-chunker** (`SrtStream`). Muxer buffers of any size become writes of whole transport packets.
- **Outbox, reference count, object lists** (`Outbox`, `RefCount`, `ContextList`). The first two are state machines over
  every interleaving of their atomic steps, the third relinks a list through cell addresses.

`Media` holds what the modules share. `dafny verify dfyconfig.toml` checks everything.

The conditions the code needs are stated where they are needed. Where a property fails without one, a lemma says exactly
when it holds, and for the reorder buffer and the ring a concrete run from creation shows it failing (in `SortCases` and
`RingCases`).

- The overlap test is skipped while at most two frames have been put, so the third has to fit by itself
  (`SortRun.WritesApartIff`, `SortCases.ThirdFrameOverwrites`); a third of the arena as the largest frame is enough
  (`SortRun.SmallIsSafe`).
- Regrowing and cleaning forget the last emitted timestamp, so an older frame can be accepted afterwards
  (`SortRun.BehindAcceptedIff`), and the order of what is emitted is lost exactly when such a frame is emitted
  (`SortRun.OrderIff`, `SortCases.RegrowGoesBack`).
- A frame the callback refuses inside the pop loop leaves the two lists out of step, and while the head is due no on-time
  frame is accepted any more until a clean, also when the arena grows (`SortRun.RefusedPopIff`, `SortRun.StuckUntilClean`,
  `SortCases.RefusedPopStops`); with the default sizes the callback refuses nothing (`PipelineSizes.DefaultsNeverRefuse`).
- The cover loop of the ring does not go round, and can leave the slot array (`RingCover.InRangeIff`,
  `RingCover.RoomyInRangeIff`, `RingCases.FirstRoundLeavesArray`), with the default sizes too
  (`RingCases.DefaultsLeaveArray`); it does not while any `uiMaxValidFrames` consecutive lengths sum to less than the
  buffer (`RingRun.RunInRange`), which packets of 1 to 349525 bytes see to with the default sizes
  (`PipelineSizes.DefaultRuns`).
- The cover loop stops at the first start that is not covered, also a stale one, so a frame that has been written over can
  stay valid (`RingCover.ClearedIff`). What a reader gets is exact for a frame from which on at most a buffer has been
  put, and whose lag is below `uiMaxValidFrames` (`RingInv.ReadsExactly`, `RingInv.ExactIff`); otherwise it can be given
  other bytes, at a lag of exactly `uiMaxValidFrames` (`RingCases.WholeRingLagMisreads`) and at a smaller one
  (`RingCases.SmallLagMisreads`).
- A muxer buffer that does not fit behind the carry is clipped and loses bytes (`SrtStream.CallConservesIff`).
- A reply fills the outbox without a size and keeps the token (`Outbox.DeadForever`).

Numbers: timestamp differences and the sort delay are kept in 32 bits, clock differences in 64, as the code assigns
them; int32 members are sign-extended on the wire. Inputs from outside (`now` for `time(NULL)`, the answers of
`mgw_libsrt_write`, the order of threads) are arbitrary.

## Model

| member | source | states |
|---|---|---|
| `SortKeeps.PutKept` | mgw-core/buffer/stream_sort.c:726-1027 | whatever the timestamp, the clock and the length, one put keeps the arena laid out, every held frame's bytes, the two lists in step and the time order; each accepted item is afterwards held, emitted or discarded and nothing else is; what was emitted since the last reset is in order |
| `SortRun.RunKept` | mgw-core/buffer/stream_sort.c:726-1027 | the invariant holds in every state of every run of puts in which the frames shorter than half the arena are not empty, are not refused by the callback, and fit if they are third after a create or clean |
| `SortRun.EmittedExactly` | mgw-core/buffer/stream_sort.c:605-724 | every frame given to the callback is, with its bytes, length, timestamp, type and priority, one accepted frame; accepted frames = held + emitted + discarded, each exactly once |
| `SortRun.OrderIff` | mgw-core/buffer/stream_sort.c:807-848 | over every safe run from creation, through any regrows and cleans: what is emitted is in order of time and arrival if and only if no frame is emitted that was accepted although older than the last one emitted before |
| `SortRun.EmittedInOrder` | mgw-core/buffer/stream_sort.c:807-848 | when no frame older than the last one emitted is accepted, everything emitted is in order, through any regrows and cleans |
| `SortRun.QuietInFront` | mgw-core/buffer/stream_sort.c:807-848 | until the first clean or regrow the buffer itself accepts no such frame |
| `SortRun.WritesApartIff` | mgw-core/buffer/stream_sort.c:470-505 | the bytes of a frame about to be stored touch no held frame if and only if it is not the third frame of a stretch or fits behind the first two: the overlap test is skipped while at most two frames were put |
| `SortCases.ThirdFrameOverwrites` | mgw-core/buffer/stream_sort.c:470 | concrete input: three frames of 400000 bytes in one mebibyte, and the first is handed on with the bytes of the third |
| `SortRun.SmallIsSafe` | mgw-core/buffer/stream_sort.c:466-505 | frames of at most a third of the arena always meet the condition of the third frame, over every run |
| `SortRun.RefusedPopIff` | mgw-core/buffer/stream_sort.c:673-698 | a round of the pop loop leaves the two lists in step if and only if the callback takes the frame; a refused one has lost its address element and stays in the time list |
| `SortRun.RefusedPopSticks` | mgw-core/buffer/stream_sort.c:681-698 | after a refused pop the head of the time list has no address element |
| `SortRun.StuckPut` | mgw-core/buffer/stream_sort.c:944-953 | in that state an on-time frame that does not make the buffer be cleaned is accepted if and only if the head is not due; when it is due the put fails, nothing is emitted and the same frames are held, regrown or not |
| `SortRun.DecayLengthensIff` | mgw-core/buffer/stream_sort.c:507-536 | the five-minute reduction lengthens the delay, to almost 2^32, if and only if it is made, both subtractions are, and the delay is below 300000 |
| `SortRun.StuckRegrow` | mgw-core/buffer/stream_sort.c:293-314 | growing the arena does not help: the packing loop goes round the shorter address list and the head's address is written over |
| `SortRun.StuckUntilClean` | mgw-core/buffer/stream_sort.c:944-953 | over any run of on-time frames that find the head due, regrows included, none is accepted and none emitted until the buffer is cleaned |
| `SortCases.RefusedPopStops` | mgw-core/buffer/stream_sort.c:673-698 | concrete run from creation: a held frame is refused inside the pop loop, the lists differ in length, and the next put fails |
| `SortRun.BehindAcceptedIff` | mgw-core/buffer/stream_sort.c:807-847 | a frame older than the last one emitted is accepted if and only if the overlap test finds it too long (from the fourth frame on), and the arena is over the limit and is cleaned, or is grown and the frame is not too late for it |
| `SortCases.RegrowGoesBack` | mgw-core/buffer/stream_sort.c:316-330 | concrete run from creation: a frame of time 10 is emitted, the arena grows, and a frame of time 5 is emitted |
| `SortRun.RegrowLeavesRoom` | mgw-core/buffer/stream_sort.c:605-620 | after a regrow to 3/2 the order and the items are the same, the address ring is in address order, and the triggering frame fits behind the packed ones without going round |
| `SortRun.FreshInv` | mgw-core/buffer/stream_sort.c:89-134 | a created buffer satisfies the invariant and has accepted, emitted and lost nothing |
| `SortInv.LaidAppend` | mgw-core/buffer/stream_sort.c:466-505 | the test against the single first element of the address ring is enough: when it passes, the new frame extends the layout of at most two ascending runs |
| `SortInv.LaidSum` | mgw-core/buffer/stream_sort.c:270-300 | all held frames together are no longer than the arena, so packing them never runs out of the new one |
| `SortInv.RegrowInv` | mgw-core/buffer/stream_sort.c:270-333 | a regrow keeps items, order and bytes, and leaves everything behind the total of the held lengths free |
| `SortInv.CleanInv` | mgw-core/buffer/stream_sort.c:233-268 | a clean establishes the invariant from any state |
| `SortKeeps.CheckMakesRoom` | mgw-core/buffer/stream_sort.c:466-642 | after the room check the buffer is empty or the frame can be written without touching a held one |
| `SortKeeps.StoreLayout` | mgw-core/buffer/stream_sort.c:196-231 | storing a frame where there is room leaves every held frame's bytes as they were and the new one's in place |
| `SortKeeps.LateOrder` | mgw-core/buffer/stream_sort.c:147-166 | a late frame is linked behind every held frame with its timestamp and in front of every later one: the list stays sorted and stable |
| `SortKeeps.LateAccepted` | mgw-core/buffer/stream_sort.c:850-918 | an accepted late frame keeps the invariant, is added once, and emits nothing |
| `SortKeeps.LateRefused` | mgw-core/buffer/stream_sort.c:780-848 | a refused late frame changes nothing but the delay, or empties the buffer after sixty of them; nothing is added or lost unaccounted |
| `SortKeeps.FindsHead` | mgw-core/buffer/stream_sort.c:336-429 | the address element found by position is the one of the head of the time list |
| `SortKeeps.OnTimeIs` | mgw-core/buffer/stream_sort.c:944-1026 | taking the head out, handing it on and using its node again for the new frame gives the state of linking the new frame first and emitting afterwards |
| `SortKeeps.OnTimeAccepted` | mgw-core/buffer/stream_sort.c:921-1026 | an accepted on-time frame keeps invariant and balance, and up to three frames are emitted in order, the first of them after the new bytes have been copied |
| `SortKeeps.PopTwiceInv` | mgw-core/buffer/stream_sort.c:661-724 | the pop loop keeps the invariant, and what it hands on is in order, with the bytes it was accepted with; how many frames that are is `SortExact.PopRounds` |
| `SortKeeps.EmitInv` | mgw-core/buffer/stream_sort.c:955-1025 | the frame handed on by the put itself and those of the pop loop: invariant, order and balance |
| `SortExact.PutExact` | mgw-core/buffer/stream_sort.c:726-1027 | one put, answer by answer: a frame of half the arena changes nothing; another is accepted exactly when the buffer is empty, or it is older than the newest, by at most the longest delay, and not older than the last one emitted, or it is not older, and less than the longest delay ahead or at most ten seconds ahead and at most the sixtieth such; the accepted one goes behind all that are not later; a refusal empties the buffer or changes no frame |
| `SortExact.ResetIff` | mgw-core/buffer/stream_sort.c:466-505 | room is made if and only if more than two frames have been put and the first one of the address ring starts in the closed interval the frame would fill, or it goes round and that start is behind the write position; it empties the buffer exactly when the arena is over 8 MiB, and otherwise keeps every frame in an arena of at least 3/2 |
| `SortExact.LostIff` | mgw-core/buffer/stream_sort.c:726-1027 | a put loses frames, and then all, if and only if room has to be made over 8 MiB, or the frame is the sixty-first that is too late or too early, or more than ten seconds ahead |
| `SortExact.PutHandsOn` | mgw-core/buffer/stream_sort.c:944-1025 | a put hands frames on if and only if it accepts a frame not older than any of at least two held, and the oldest is due; at most three, each after the first while more than three are held and it is due, and it does not stop before the third as long as that is so |
| `SortExact.PopRounds` | mgw-core/buffer/stream_sort.c:668-721 | the pop loop hands on a prefix of the time list: two frames, or all that are due while more than three are held |
| `SortExact.RegrowSize` | mgw-core/buffer/stream_sort.c:605-620 | the new arena has 3/2 of the size, writing goes on behind the total of the held lengths, and refused frames and the last emitted timestamp are forgotten |
| `SortExact.DelayReducedIff` | mgw-core/buffer/stream_sort.c:507-536 | the delay is reduced if and only if a frame goes round the end, from the fourth put on, five minutes after the clock was set, and to what: down to the measured spread, or by 100 or 300 ms |
| `SortExact.DelayLengthenedIff` | mgw-core/buffer/stream_sort.c:818-892 | a frame older than the head lengthens the delay, accepted or not, by its distance or by 20 ms when that is over 60 ms, as long as delay and distance stay below the longest |
| `SortExact.SpreadMeasured` | mgw-core/buffer/stream_sort.c:900-913 | an accepted frame behind the head raises the measured spread to the distance from the newest frame to the last one not later than it |
| `SortExact.LateCounted` | mgw-core/buffer/stream_sort.c:780-848 | the late frames that are refused are counted in a row |
| `SortExact.EarlyCounted` | mgw-core/buffer/stream_sort.c:919-948 | the early frames are counted until one is on time; one that is refused sets the delay back |
| `SortExact.FirstExact` | mgw-core/buffer/stream_sort.c:748-778 | the first frame of an empty buffer is accepted and is newest, oldest and last emitted timestamp at once |
| `SortExact.StoreExact` | mgw-core/buffer/stream_sort.c:196-231 | the bytes go to the write position, or to 0 when they would not fit before the end, nothing else in the arena changes, and the next write position is behind them, going round |
| `SortExact.PositionExact` | mgw-core/buffer/stream_sort.c:748-1026 | an accepted frame moves the write position behind itself, whatever is handed on |
| `SortExact.CreateExact` | mgw-core/buffer/stream_sort.c:89-134 | a new buffer is empty and its longest delay is never under a second |
| `SortLists.TimeList.InsertHead` | mgw-core/buffer/stream_sort.c:894-898 | the new node is in front, every node behind the head still points back at the one before it, all data unchanged |
| `SortLists.TimeList.InsertSortMiddle` | mgw-core/buffer/stream_sort.c:147-166 | the node is linked in front of the first later one, the returned timestamp is that of the node before, and the head's stale back pointer is never followed |
| `SortLists.TimeList.FindLater` | mgw-core/buffer/stream_sort.c:147-158 | the search ends behind the head, at a node whose back pointer is right |
| `SortLists.TimeList.InsertSortEnd` | mgw-core/buffer/stream_sort.c:168-180 | the node is the last one and the list is otherwise unchanged |
| `SortLists.TimeList.RemoveHead` | mgw-core/buffer/stream_sort.c:981-986 | the list without its head, and the head's node free to be used again |
| `SortLists.TimeList.PopHead` | mgw-core/buffer/stream_sort.c:699-712 | the list without its head, the new head's back pointer inherited |
| `SortLists.AddrList.Add` | mgw-core/buffer/stream_sort.c:340-363 | the position is appended at the end of the circular list |
| `SortLists.AddrList.Find` | mgw-core/buffer/stream_sort.c:367-378 | the first element with the position, and none exactly when there is none |
| `SortLists.AddrList.MoveToEnd` | mgw-core/buffer/stream_sort.c:363-399 | the first element with the old position gets the new one and is the last; -2 and no change when there is none |
| `SortLists.AddrList.Delete` | mgw-core/buffer/stream_sort.c:400-426 | the list without the first element with that position; -2 and no change when there is none |
| `SortBuffer.StreamSort.PutFrameStreamSort` | mgw-core/buffer/stream_sort.c:726-1027 | the object with its arena, linked lists and counters changed in place does exactly what the specification says, result and emitted frames included |
| `SortBuffer.StreamSort.PutFirstFrame` | mgw-core/buffer/stream_sort.c:754-778 | the first frame of an empty buffer, in place |
| `SortBuffer.StreamSort.PutLateFrame` | mgw-core/buffer/stream_sort.c:780-918 | a frame older than the newest, in place |
| `SortBuffer.StreamSort.PutOnTimeFrame` | mgw-core/buffer/stream_sort.c:919-1026 | a frame at or after the newest, with node reuse, in place |
| `SortBuffer.StreamSort.PopFrameStreamSort` | mgw-core/buffer/stream_sort.c:661-724 | the pop loop in place, every emitted frame recorded |
| `SortBuffer.StreamSort.CheckStreambuff` | mgw-core/buffer/stream_sort.c:466-642 | the room check in place; 1 exactly when the arena was replaced |
| `SortBuffer.StreamSort.ShrinkNeverFires` | mgw-core/buffer/stream_sort.c:535-539 | the test for halving the arena comes after the clock it looks at has been reset, so it never succeeds |
| `SortBuffer.StreamSort.ReduceDelay` | mgw-core/buffer/stream_sort.c:507-536 | the five-minute reduction of the delay in 32 bits, both subtractions included |
| `SortBuffer.StreamSort.RemallocSortBuff` | mgw-core/buffer/stream_sort.c:270-333 | a fresh arena with the held frames packed, node by node of both lists at once |
| `SortBuffer.StreamSort.CleanSortBuff` | mgw-core/buffer/stream_sort.c:233-268 | both lists empty and the counters as after creation, the delay restored |
| `SortBuffer.StreamSort.MemcpyToSortBuff` | mgw-core/buffer/stream_sort.c:196-231 | the bytes at the write position, or at 0 when they would not fit before the end; the rest of the arena unchanged |
| `SortBuffer.StreamSort.constructor` | mgw-core/buffer/stream_sort.c:89-134 | a created buffer matches the specification's initial state |
| `RingInv.PutBytes` | mgw-core/buffer/stream_buff.c:220-279 | after a put inside the slot array every frame that lags by less than uiMaxValidFrames has its slot position, and every frame from which on at most a buffer has been put has its bytes at the place the lengths give |
| `RingCover.InRangeIff` | mgw-core/buffer/stream_buff.c:192-218 | on every reachable ring: the cover loop stays inside the slot array if and only if it starts at one of the first three slots or one of the frames that the slots up to the last give the start of is not covered |
| `RingCover.RoomyInRangeIff` | mgw-core/buffer/stream_buff.c:196-204 | while any uiMaxValidFrames consecutive lengths sum to less than the buffer: if and only if it starts at one of the first three slots, or the frames from that of the last slot on (in the first round all) with the new one are shorter than the buffer or fill it from offset 0 |
| `RingCover.RoomyInRange` | mgw-core/buffer/stream_buff.c:196-204 | under that length condition with the new frame included, the cover loop never leaves the slot array |
| `RingCases.FirstRoundLeavesArray` | mgw-core/buffer/stream_buff.c:196-204 | concrete input: four slots, ten bytes, three frames of four bytes, and the third leaves the slot array |
| `RingCases.DefaultsLeaveArray` | mgw-core/buffer/stream_buff.c:196-204 | concrete input with the default thirty slots and ten mebibytes: eight frames of 1300000 bytes stay inside the slot array and the ninth leaves it |
| `RingCover.PutKeepsValid` | mgw-core/buffer/stream_buff.c:192-218 | under that length condition the cover loop clears no valid flag |
| `RingInv.PutMeta` | mgw-core/buffer/stream_buff.c:220-279 | whatever the lengths, every frame that still has a slot keeps its length, timestamp, type and priority there |
| `RingInv.ReadsExactly` | mgw-core/buffer/stream_buff.c:475-501 | an intact frame is read exactly as it was put, split at the end of the ring or not: at most a buffer has been put from it on, and it lags by less than uiMaxValidFrames, or by as much with exactly a buffer put |
| `RingInv.ExactIff` | mgw-core/buffer/stream_buff.c:242-275 | the slot of a retained frame says where the frame is and none of its bytes has been written again, if and only if it is intact |
| `RingInv.RewrittenIff` | mgw-core/buffer/stream_buff.c:242-263 | a byte of a frame has been written again by a later frame if and only if more than a buffer has been put from it on |
| `RingInv.RoomyIntact` | mgw-core/buffer/stream_buff.c:242-275 | while any uiMaxValidFrames consecutive lengths sum to less than the buffer, every frame that lags by less than uiMaxValidFrames is intact |
| `RingCover.ClearedIff` | mgw-core/buffer/stream_buff.c:192-218 | on every reachable ring a slot the loop can look at loses its flag exactly when every frame from the oldest up to its own is covered: one start left over from earlier stops the loop before frames the write touches |
| `RingCover.PutClearsTouched` | mgw-core/buffer/stream_buff.c:192-218 | while the history is roomy and the loop stays inside the array, a put clears exactly the retained frames it covers, and a frame left valid shares no byte with the write |
| `RingCover.WindowOrdered` | mgw-core/buffer/stream_buff.c:192-204 | after a roomy history the slots the loop can look at are in ring order |
| `RingCases.WholeRingLagMisreads` | mgw-core/buffer/stream_buff.c:274-275 | concrete run: a reader whose lag is exactly uiMaxValidFrames passes every check and is given other bytes than were put |
| `RingCases.SmallLagMisreads` | mgw-core/buffer/stream_buff.c:192-218 | concrete run: all writes in range, a reader three frames behind in a ring of five, and it is given other bytes than were put |
| `RingCover.CoverExact` | mgw-core/buffer/stream_buff.c:192-218 | with the starts in ring order the loop clears exactly the visited slots whose start lies in the circular interval just written |
| `RingCover.UncoveredApart` | mgw-core/buffer/stream_buff.c:192-218 | a frame whose start is not covered and that does not reach over the write point shares no byte with the write |
| `RingRun.JumpOldestExact` | mgw-core/buffer/stream_buff.c:282-322 | succeeds exactly when some retained number at or after the reader is a valid key frame, finds the least, never goes back, and otherwise changes nothing |
| `RingRun.JumpNewestExact` | mgw-core/buffer/stream_buff.c:325-356 | finds the greatest valid key frame strictly after the reader, inside the retained window, exactly when there is one |
| `RingRun.GetExact` | mgw-core/buffer/stream_buff.c:379-502 | one get: what is delivered is retained, carries the metadata put under its number, and is the frame the reader stood at or a key frame after it |
| `RingRun.RunKept` | mgw-core/buffer/stream_buff.c:379-502 | over any interleaving of puts, gets and invalidations the delivered numbers strictly increase, the first is a key frame and so is each that does not follow its predecessor |
| `RingRun.RunBytes` | mgw-core/buffer/stream_buff.c:220-501 | over any run of puts inside the slot array, gets and invalidations every frame that is intact when it is read is read exactly as it was put |
| `RingRun.RunLag` | mgw-core/buffer/stream_buff.c:379-501 | over any run whose frames keep the length condition, every reader that lags by less than uiMaxValidFrames finds the frame intact |
| `RingRun.RunInRange` | mgw-core/buffer/stream_buff.c:196-204 | over any run whose frames keep the length condition every put stays inside the slot array |
| `RingRun.RunAllValid` | mgw-core/buffer/stream_buff.c:192-218 | and without invalidations from outside all retained frames stay valid |
| `RingRun.StartBytes` | mgw-core/buffer/stream_buff.c:51-74 | an empty ring with a reader at 0 satisfies the invariant of the byte-exact runs |
| `RingRun.ReadInOrder` | mgw-core/buffer/stream_buff.c:496-501 | timestamps that never go back when put never go back when read |
| `FrameRing.StreamBuff.PutOneFrameToBuff` | mgw-core/buffer/stream_buff.c:220-279 | slot array, byte array and counter after the put are exactly those of the specification; -2 and no change for a frame of half the buffer |
| `FrameRing.StreamBuff.CheckBuffDataCover` | mgw-core/buffer/stream_buff.c:192-218 | the loop clears exactly the run of covered slots from the next one on |
| `FrameRing.StreamBuff.StoreFrame` | mgw-core/buffer/stream_buff.c:242-263 | the bytes in one or two parts, the next start and the end of the interval |
| `FrameRing.StreamBuff.JumpToOldestIFrame` | mgw-core/buffer/stream_buff.c:282-322 | the search loop over the slots, against the least retained key frame |
| `FrameRing.StreamBuff.JumpToNewestIFrame` | mgw-core/buffer/stream_buff.c:325-356 | the search loop back from the writer, against the greatest key frame, for readers behind the writer and not |
| `FrameRing.StreamBuff.CopyOut` | mgw-core/buffer/stream_buff.c:475-487 | the bytes of a frame, in one or two parts |
| `FrameRing.StreamBuff.GetOneFrameFromBuff` | mgw-core/buffer/stream_buff.c:379-502 | every return path, the reader's new position and the delivered frame |
| `RingExact.PutRefusedIff` | mgw-core/buffer/stream_buff.c:236-240 | -2 and no change exactly for a frame of half the buffer or longer |
| `RingExact.FlagsExact` | mgw-core/buffer/stream_buff.c:192-218 | a put makes its own slot valid and clears those behind it up to the first whose start is not in the closed interval written, the end of the slot array or uiMaxValidFrames - 2 slots; every other flag stays |
| `RingExact.GetStanding` | mgw-core/buffer/stream_buff.c:440-501 | a reader that has had its key frame, is at most uiMaxValidFrames behind and stands on a valid frame is given exactly that frame and moves on by one, unless the frame is too long for it or more than 2000 ahead of the time it asks from; then it is told so and stays |
| `RingExact.GetSentOn` | mgw-core/buffer/stream_buff.c:413-451 | one that is further behind, or whose frame is not valid, is answered about the least valid key frame left and not behind it, and is slow if and only if there is none |
| `RingExact.GetNewcomer` | mgw-core/buffer/stream_buff.c:413-438 | a new reader is answered about the greatest valid key frame of the newest four (ahead of it while fewer than five were put), gets nothing while there is none, and is slow only when overtaken with no key frame left |
| `RingExact.GetFastIff` | mgw-core/buffer/stream_buff.c:397-410 | a reader is fast exactly when it is not behind the writer |
| `RingExact.RunGapless` | mgw-core/buffer/stream_buff.c:379-502 | over any roomy run without invalidations, a reader at most uiMaxValidFrames behind whenever it reads is given every frame from where it stands on, one at each read that finds one waiting, without a gap |
| `Pipeline.RunKept` | mgw-core/buffer/ring-buffer.c:144-199 | over any run of writes and reads the ring holds exactly what the sorter emitted, in that order |
| `Pipeline.FreshInv` | mgw-core/buffer/ring-buffer.c:47-105 | a new sorter and ring of any sizes satisfy the invariant of the pipeline |
| `Pipeline.ReadsInOrder` | mgw-core/buffer/ring-buffer.c:144-199 | end to end, through any regrows and cleans: as long as the sorter accepts no packet older than the last one it has emitted, the timestamps a reader gets never go back, whatever order packets arrive in and wherever the reader is overtaken |
| `Pipeline.QuietInFront` | mgw-core/buffer/ring-buffer.c:144-172 | until the sorter is first cleaned or regrown it accepts no such packet |
| `Pipeline.ReadsWhatWasWritten` | mgw-core/buffer/ring-buffer.c:40-44 | end to end: every frame that is intact in the ring when it is read is, byte for byte, one accepted packet with its timestamp, type and priority |
| `PipelineSizes.ShortIsSafe` | mgw-core/buffer/ring-buffer.c:144-199 | packets of 1 to len bytes need no other condition over any run: three fit the arena, two the ring and as many as it has slots fit in less, so each third frame fits, every ring write stays inside the slot array, and every reader that lags by less than uiMaxValidFrames finds its frame intact |
| `PipelineSizes.ShortRuns` | mgw-core/buffer/ring-buffer.c:40-199 | both end-to-end results from creation under that condition on the lengths alone |
| `PipelineSizes.DefaultRuns` | mgw-core/buffer/ring-buffer.c:10-38 | the default instance: four mebibytes, ten mebibytes, thirty slots, packets of 1 to 349525 bytes |
| `PipelineSizes.DefaultsNeverRefuse` | mgw-core/buffer/ring-buffer.c:40-44 | with the default sizes the sorter itself turns away every frame the ring would refuse for its length, also after it has grown, so the callback never answers -2 |
| `PipelineSizes.DefaultsSafe` | mgw-core/buffer/ring-buffer.c:40-44 | with the default sizes the condition that the ring takes every frame follows from the other two, a fitting third frame and ring writes inside the slot array, over every run |
| `Pipeline.PacketRoundTrip` | mgw-core/buffer/ring-buffer.c:150-197 | kind, key-frame flag, bytes, timestamp and priority of a packet survive the way through the frame types, audio as 7, a key frame as 0 and another video frame as 2; read back, 3 is a key frame too |
| `Pipeline.LimitIs` | mgw-core/buffer/stream_buff.c:236-240 | the callback answers -2 exactly from the sorter's limit on |
| `Wire.VarintRoundTrip` | deps/include/google/protobuf/parse_context.h:599-618 | a varint is read back with what follows it, if it has as many bytes as the reader takes |
| `Wire.BytesRoundTripIff` | deps/include/google/protobuf/parse_context.h:599-609 | a length-delimited record is read back if and only if its length is one the input stream allows |
| `Wire.VarintSizeExact` | deps/include/google/protobuf/io/coded_stream.h:1656-1682 | the multiplication and shift in place of a division give the number of bytes written, for every 64-bit value |
| `Wire.FieldRoundTrip` | deps/include/google/protobuf/parse_context.h:532-547 | tag and value of any field used here are read back, whatever follows |
| `Wire.ParseEncoded` | message/mgw.pb.cc:1672-1720 | a parse loop over encoded fields is the field assignments in order, then the rest of the input |
| `Wire.Int32RoundTrip` | message/mgw.pb.cc:630-644 | a negative int32 goes out as ten bytes and comes back unchanged |
| `MessageBytes.EncodeExact` | deps/include/google/protobuf/io/coded_stream.h:900-925 | a number goes out as a varint with that value, seven bits to a byte, the least significant first, without a padding byte |
| `MessageBytes.EncodeOnly` | deps/include/google/protobuf/io/coded_stream.h:900-925 | and no other bytes do |
| `MessageBytes.DecodeExact` | deps/include/google/protobuf/parse_context.h:599-618 | what is read is the value of the bytes up to the first without a high bit, among as many as the reader takes, and nothing if there is none |
| `MessageBytes.DeviceBytes` | message/mgw.pb.cc:385-415 | a device is the records 0A type, 12 sn, 1A token, each with its length, empty ones left out |
| `MessageBytes.StreamBytes` | message/mgw.pb.cc:703-773 | a stream is 08 01 when enabled, 10 and 18 with the channels in 64 bits, 22 uri, 2A code, 32 username, 3A password, defaults left out |
| `MessageBytes.StartBytes` | message/mgw.pb.cc:1055-1083 | a start message is 0A with the device and 12 with the stream, each if it is there and with its length |
| `MessageBytes.MsgBytes` | message/mgw.pb.cc:1722-1758 | a message is A2 01 with the start message and its length, AA 01 00, B2 01 00, or nothing |
| `MessageBytes.DeviceRecords` | message/mgw.pb.cc:317-371 | the parse loop sets exactly the member of each number: 0A type, 12 sn, 1A token |
| `MessageBytes.StreamTexts` | message/mgw.pb.cc:617-701 | the same for the strings of a stream |
| `MessageBytes.StreamScalars` | message/mgw.pb.cc:617-701 | the same for its flag and its two channels, of which the low 32 bits count |
| `MessageBytes.StartRecords` | message/mgw.pb.cc:1012-1053 | a record is parsed into the submessage of its number, made when it is not there |
| `MessageBytes.MsgRecords` | message/mgw.pb.cc:1672-1720 | a start record is parsed into the start message that is there or a new one, the two others replace any case |
| `MessageBytes.OtherFields` | message/mgw.pb.cc:317-371 | no other field is taken for a member of any of the four messages |
| `MessageBytes.TooLongIsMalformed` | deps/include/google/protobuf/parse_context.h:599-609 | a record that announces more than INT_MAX less sixteen bytes ends the parse |
| `MessageBytes.UnendedIsMalformed` | deps/include/google/protobuf/parse_context.h:532-547 | so does a key that does not end in five bytes, a value that does not in ten, and a zero or end-group key |
| `Messages.MsgSizeExact` | message/mgw.pb.cc:1760-1801 | ByteSizeLong is the number of bytes serialized, so the lengths written in front of nested messages are right |
| `Messages.StartSizeExact` | message/mgw.pb.cc:1085-1114 | the same one level down |
| `Messages.StreamSizeExact` | message/mgw.pb.cc:775-837 | the same for a stream, skipped defaults included |
| `Messages.DeviceSizeExact` | message/mgw.pb.cc:417-453 | the same for a device |
| `Messages.ParseIsMerge` | message/mgw.pb.cc:1672-1758 | parsing a serialized message into any other, with anything behind it, is merging it in and going on |
| `Messages.ConcatenationIsMerge` | message/mgw.pb.cc:1818-1842 | parsing two serialized messages one behind the other gives the first with the second merged in: the same oneof case merges, another one replaces, defaults leave members alone |
| `Messages.RoundTrip` | message/mgw.pb.cc:1672-1758 | a serialized message is parsed back unchanged: presence of empty submessages, oneof case and negative numbers included |
| `Messages.StartParsed` | message/mgw.pb.cc:1012-1083 | the same law for the start message with its two optional submessages |
| `Messages.StreamParsed` | message/mgw.pb.cc:617-773 | the same law for a stream |
| `Messages.DeviceParsed` | message/mgw.pb.cc:317-415 | the same law for a device |
| `MessageObjects.MgwMsg.InternalParse` | message/mgw.pb.cc:1672-1720 | the dispatch loop on the mutable message, against the parse of its value; only its own objects change |
| `MessageObjects.MgwMsg.MergeFrom` | message/mgw.pb.cc:1818-1842 | the merge on mutable messages, against the merge of their values; what the result owns afterwards it owned before or is new, and the source message shares none of it |
| `MessageObjects.MgwMsg.MutableStart` | message/mgw.pb.h:1855-1862 | the submessage of this case, kept when the case is set and new and empty after clearing any other |
| `MessageObjects.MgwMsg.MutableEmpty` | message/mgw.pb.h:1928-2008 | the same for the two cases without members |
| `MessageObjects.MgwMsg.ClearMessage` | message/mgw.pb.cc:1633-1659 | no case is set, whichever was |
| `MessageObjects.StartStream.InternalParse` | message/mgw.pb.cc:1012-1053 | the loop with its nested loops, submessages made on demand |
| `MessageObjects.StartStream.MergeFrom` | message/mgw.pb.cc:1131-1144 | submessages merged in place, made when absent |
| `MessageObjects.Stream.InternalParse` | message/mgw.pb.cc:617-701 | the loop on a stream |
| `MessageObjects.Stream.MergeFrom` | message/mgw.pb.cc:854-882 | only non-defaults replace |
| `MessageObjects.Device.InternalParse` | message/mgw.pb.cc:317-371 | the loop on a device |
| `MessageObjects.Device.MergeFrom` | message/mgw.pb.cc:470-486 | only non-empty strings replace |
| `SrtStream.ChunksConserve` | plugins/outputs/srt-stream.c:125-167 | what one call writes and keeps is its input, no write exceeds the payload size, less than a packet is kept |
| `SrtStream.ChunksExact` | plugins/outputs/srt-stream.c:125-167 | every write but the last is exactly a payload, and what is kept is what the full payloads leave, less whole packets |
| `SrtStream.WholePacketsIff` | plugins/outputs/srt-stream.c:125-167 | what one call writes ends on a packet boundary if and only if the bytes of its full payloads, (length - 1) / payload of them, are whole packets |
| `SrtStream.CallConservesIff` | plugins/outputs/srt-stream.c:109-119 | one call loses nothing if and only if nothing is carried or the buffer fits behind the carry |
| `SrtStream.RunConserves` | plugins/outputs/srt-stream.c:89-167 | over any sequence of calls that end well, writes and carry together are all the input in order if and only if no buffer is clipped; every write fits the payload and less than a packet is carried |
| `SrtStream.RunWholePackets` | plugins/outputs/srt-stream.c:89-167 | with a payload of whole packets the writes are whole packets, and without clipped buffers together the longest whole-packet prefix of the input |
| `SrtStream.SplitIndependent` | plugins/outputs/srt-stream.c:89-167 | how the input is split into calls makes no difference to what is sent or kept, as long as no buffer is clipped |
| `SrtStream.SrtOutput.ProcPacket` | plugins/outputs/srt-stream.c:89-175 | every path in place: the stream is ended if and only if the counter was above 100 or an answer is -5009, -2001, -5004, -17 or -113 to -90, which is then the last; every other negative answer adds one to the one-byte counter and changes neither writes nor carry |
| `SrtStream.SrtOutput.SendPayloads` | plugins/outputs/srt-stream.c:125-141 | the loop of full payloads |
| `SrtStream.SrtOutput.SendRest` | plugins/outputs/srt-stream.c:143-167 | the whole packets of the rest in one write, the remainder kept |
| `Outbox.RunKept` | message/ws-client.c:134-170 | over all interleavings the one token is in the semaphore, with one thread, behind one unsent message, or lost; every filled message has been written once and in fill order, all but at most the last |
| `Outbox.FromCreation` | message/ws-client.c:555-605 | from creation on: semaphore + holders + pending message is at most one, and requests minus writes is the pending message plus the replies |
| `Outbox.FillFindsEmpty` | message/ws-client.c:152-169 | whoever fills the buffer is alone and finds it empty, so no unsent message is overwritten |
| `Outbox.DeadForever` | message/ws-client.c:331-345 | after the first reply, which sets no size, or the first send that finds the client inactive, nothing is ever filled or written again |
| `Outbox.AliveCanSend` | message/ws-client.c:670-692 | while the token is not lost and nobody has it, five steps of any idle thread and the writable callback write its message |
| `Outbox.TokenMoves` | message/ws-client.c:670-692 | the token is lost by a filled reply and by a call that finds the client inactive, and by nothing else, and comes back by a write only |
| `Outbox.BufferMoves` | message/ws-client.c:152-169 | a fill puts the message in front of what was there and sets a size only for one that is to be written; the callback writes that many bytes, once |
| `RefCount.FromCreation` | mgw-core/include/mgw-internal.h:104-114 | over all interleavings refs + 1 is the number of references, and the object is destroyed at most once and exactly when there is none |
| `RefCount.FailuresCharged` | mgw-core/include/mgw-internal.h:116-125 | with the failed swap and the next read of the word as two steps, a thread's failed swaps are never more than the changes other threads made |
| `RefCount.DestroyedForever` | mgw-core/include/mgw-internal.h:109-125 | after the release that saw -1 no reference is got, added or released in any continuation |
| `RefCount.GetSucceedsIff` | mgw-core/include/mgw-internal.h:116-125 | a get by a thread running alone succeeds if and only if the object has an owner |
| `RefCount.ReferencesMove` | mgw-core/include/mgw-internal.h:104-125 | what each step does to each thread's references: one more for an add or for a swap that finds what was read, one less for a release, and the release that sees 0 destroys |
| `RefCount.NextStep` | mgw-core/include/mgw-internal.h:116-125 | a get goes on to the swap exactly when the word is above -1, and reads it again after a swap that failed |
| `ContextList.ReplayExact` | mgw-core/core-api/mgw.c:431-463 | after any sequence of inserts and removes a context is in the list if and only if the last call about it was an insert, and the list is in the order of those inserts, newest first, each context once |
| `ContextList.Perform` | mgw-core/core-api/mgw.c:431-463 | the linked list relinked in place is that list after every sequence of calls, repeated removes included, and stays well formed |
| `ContextList.List.InsertContext` | mgw-core/core-api/mgw.c:431-449 | the context is the new head, every cell address points at the cell that holds its node |
| `ContextList.RemoveContext` | mgw-core/core-api/mgw.c:451-463 | exactly this context is gone, the others keep their order, and removing one that is in no list changes nothing |
| `ContextList.InsertAmong` | mgw-core/core-api/mgw.c:431-449 | with several lists in the heap, inserting into one keeps all in order and apart |
| `ContextList.RemoveAmong` | mgw-core/core-api/mgw.c:451-463 | the same for removing, though the call does not say which list |
| `ContextList.List.FindByName` | mgw-core/core-api/mgw.c:325-344 | the first context that is not private and has the name, and none exactly when there is none |

## Left out

- SortBuffer.StreamSort.PutFrameStreamSort: required of its caller here and not by the code: a frame shorter than half the arena is not empty, and fits if it is the third. A third frame that does not fit corrupts a held one, which `SortCases.ThirdFrameOverwrites` shows; lengths of zero are not part of the run theorems. The lists are in step before the call: what follows a refused pop is proved about the step function only (`SortRun.StuckUntilClean`).
- SortRun.RunKept: the callback takes every frame shorter than a limit and refuses the others; other reasons for a refusal are not modelled.
- SortBuffer.StreamSort.CheckStreambuff: the branch that halves the arena is not modelled, since `ShrinkNeverFires` shows it is never taken; `time(NULL)` is read once per call.
- SortBuffer.StreamSort.RemallocSortBuff: in place only for lists of the same length; the step function also has the loop for a shorter address list (`SortRun.StuckRegrow`). The branch for a frame split at the end of the old arena is not modelled; the layout invariant rules it out.
- SortLists.AddrList.Delete: not called on a one-element list, where the code would leave a dangling head; its callers hold at least two elements.
- FrameRing.StreamBuff.PutOneFrameToBuff: requires that the cover loop stays inside the slot array, outside of which the code's behaviour is undefined; `RingCover.InRangeIff` says exactly when it does.
- FrameRing.StreamBuff.GetOneFrameFromBuff: the log lines, the reader's statistics and the returned length beside the frame are not modelled; several readers are several `MemReader` objects on one ring.
- RingRun.RunBytes: a put that would leave the slot array stops at its end in the model, where the code may write into the buffer's bytes; `RingRun.RunInRange` and `PipelineSizes.ShortIsSafe` say when no put does.
- Pipeline.ReadsInOrder: the condition that writes stay inside the slot array is part of `Safe`; `PipelineSizes.ShortIsSafe` derives it from the lengths.
- Pipeline.RunKept: the pipeline with its sorter; without one, `mgw_rb_write_packet` calls the ring's put directly, which is `RingRun`'s subject.
- Messages.RoundTrip: for messages whose lengths the parser's input stream allows (below 2 GiB).
- MessageObjects.MgwMsg.InternalParse: an input with a field or wire type that the messages do not have ends as `NotModelled`; unknown fields, UTF-8 checks, arenas, cached sizes and the recursion limit are not modelled.
- SrtStream.SrtOutput.ProcPacket: the byte counter is not modelled, since the code adds the payload size also for a shorter last write.
- Outbox.RunKept: messages fit the buffer and are not empty; `lws_write` appends to a log; what a reply leaves in the buffer is never sent.
- RefCount.FromCreation: the word is unbounded, and reads and swaps are sequentially consistent.
- ContextList.RemoveContext: the mutex is the flag that says a context is in a list; taking a reference under it in a lookup is `RefCount`'s subject.
- Freed memory: nodes and arenas are garbage collected, so use after free is not a question here; allocation never fails.
- Counters that the code keeps in 32 bits (puts, pops, the writer's number) are unbounded.
- Puts and gets of the ring are atomic steps; the unlocked races of the real memory are not modelled.
- Arena pointers are offsets; the numeric members of the sort buffer are one record, assigned member by member in the code.
- `GetOneFrameFromBuff2`, shared memory, reconnects, RTMP, FLV and ADTS layouts, JSON, configuration and start-up would only add easy members or are foreign code.
