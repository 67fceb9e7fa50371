# IX in Dafny

IX is a dataplane operating system: network stack, timers, storage and flow groups run on dedicated CPUs,
and a small library and a control program drive them. This project models the parts of it that keep
invariants over long runs, and proves what they promise over every run, every input or every reachable
state.

| file | part of IX | main results |
|---|---|---|
| `TimerWheel.dfy`, `TimerOrder.dfy` | hierarchical timing wheel | `Conservation`, `SafeExactly`, `LastAddedFirst` |
| `TcpReceive.dfy`, `TcpReceiveExact.dfy` | TCP reassembly and receive window | `ReassemblySafe`, `ReassemblyComplete`, `FinExactly`, `ReceiveKnownExactly`, `AnnouncedExactly`, `EnqueueExactly`, `EdgeNeverRetreats`, `WindowExactly`, `WireEdgeExactly` |
| `TcpSend.dfy`, `TcpSendExact.dfy`, `TcpSendRuns.dfy` | TCP send queues and buffer accounting | `SendInvariant`, `AccountsAlways`, `WriteAllOrNothing`, `OutputSends`, `TimeoutResends`, `AckExactly`, `HandshakeAccounts`, the lemmas named `...AfterRexmitExactly` |
| `Migration.dfy`, `MigrationExact.dfy` | flow-group migration between CPUs | `MigrationEnds`, `HurriedAlways`, `TransitionsExact`, `DeliveredByOwner`, `DeliveredInOrder`, `DeliveredOnce`, `NothingLost` |
| `Balance.dfy` | distribution of flow groups by the control plane | `ControlPlane.SetCpus`, `LeastMoves` |
| `FreeList.dfy`, `BlkIndex.dfy`, `KvStore.dfy`, `KvRuns.dfy`, `BlkIo.dfy` | key/value store: extents, hash index, batched writes | `Conservation`, `RefinesMap`, `IndexRefines`, `GetThenFree`, `LookupExactly`, `PutFindExactly`, `PlacementExactly` |
| `Recovery.dfy`, `Corruption.dfy`, `Restart.dfy` | scan of the device at start-up | `RecoversSpace`, `RecoversBest`, `DamageSkipped`, `CrashLosesNothing`, `DurableMap`, `RecoversExactly` |
| `Common.dfy`, `Words.dfy`, `Crc32.dfy` | shared definitions, machine words, table-driven CRC-32 | `CrcTables.NewerCrc`, `BitBurstDetected` |
| `InetChecksum.dfy` | Internet checksum | `InetChksumPbuf`, `InetChksumPseudo`, `Chksum1`, `Chksum2`, `Chksum3`, `ChecksumVerifies` |
| `IxevSend.dfy`, `IxevSendExact.dfy` | send path of the event library | `StreamInOrder`, `WindowKept`, `SendExactly`, `SendZcExactly`, `BuffersSafe`, `FiresExactly`, `CallbackExactly` |

Each part is written twice. Functions on values say what a step does; classes and loops do it in place, as
the program does, and are proved to do that step. Invariants, runs and theorems are stated about the
functions, so they hold of the classes. The modules named `...Exact` say what single steps do without naming
how they do it: which segments go out, how many bytes are accepted, when a FIN is noticed. Chained lists are sequences held in fields. Clocks, the outcome of
allocations, the congestion window, the hash function and the choices of the control plane's unordered
lists are parameters, so that the theorems hold for all of them. Sequence numbers are unbounded integers;
`TcpReceive.SeqCompareAgrees` says when that is the same as the 32-bit comparison.

## Where the code does not do what one would expect

The model follows the code. Where an expected property is false there is a lemma with an input, or a run from
the start, that shows it, and one that says exactly when it holds.

- A timer can fire early: from a start that is off a bucket boundary, with a rounded delay within that offset
  of 4096 us or longer, and from any start out of the coarsest wheel (`SafeExactly`, with
  `UnalignedFiresEarly` and `CoarsestWheelFiresEarly`).
- timer_add accepts delays for which the wheel index is out of range (`AcceptedOutside`).
- An out-of-order TCP segment that lies strictly inside a queued one makes the queue forget the rest of that
  segment (`EnqueueExactly`, `PlaceLoses`). The peer has to send it again; the delivered stream stays right.
- A FIN that comes with data that is queued already goes unnoticed; the peer has to send it again
  (`ReceiveFinExactly`, `FinExactly`, with the run `FinForgotten`).
- A peer that sends beyond its window can drive the receive window below zero: only behind the last queued
  segment is an out-of-order arrival clipped (`OverrunExactly`, `WindowExactly`, with `OverrunGoesNegative`).
- The announced edge never retreats, but the edge a peer reads from the scaled 16-bit field does, in some run
  for every scale TCP allows (`WireEdgeExactly`, with `RetreatsWhenScaled` and `RetreatsUnscaled`).
- The acknowledgement of a FIN that was added to a data segment leaves one byte more of send buffer than
  there is (`BufferOverrunExactly`, with the run `BufferOverrun`).
- While a segment that was retransmitted early waits because the window holds it back, a write can let it grow
  into its successor, closing can put the FIN there, and a timeout can put it out of order
  (`WriteAfterRexmitExactly`, `CloseAfterRexmitExactly`, `TimeoutAfterRexmitExactly`, with the run
  `OrderLost`).
- A flush of more than one write starts the device write behind the blocks of the first entry
  (`PlacementExactly`, `BatchReads`), and a value whose part behind the first block is a whole
  number of blocks is padded by a block too many (`ImageFillsExactly`, `BatchFitsExactly`).
- Keys are compared only up to the length of the key asked for, so a key can be found under a beginning of it
  (`LookupExactly`), and a put can change what other keys find and remove one of them (`PutFindExactly`,
  `PutRemovesExactly`).
- A restart can lose what was written: the version of an entry wraps at 16 bits, so that after 65536 puts of a key
  the older record wins, and a value that was overwritten can look like a record where one of its blocks begins,
  so that the scan jumps over entries (`NewestWinsExactly`, `RecoversExactly`, with the runs `WrapLoses` and
  `MarkLoses`). An empty value trips an assertion of the scan (`EmptyMetExactly`).
- A sent callback is never early but can be late (`CallbackExactly`, with `CallbackHeldBack`).

## Model

| member | source | states |
|---|---|---|
| `TimerWheels.WheelIndexMeaning` | dp/core/timer.c:111-143 | the count-leading-zeros arithmetic picks the finest wheel whose range covers the rounded delay, for every delay, and indexes inside the wheel array exactly for rounded delays below 2^28 |
| `TimerWheels.AcceptedOutside` | dp/core/timer.c:152-171 | of the delays timer_add accepts, the wheel index is in range if and only if the real clock is less than 2^28 - 16 minus the delay ahead of the cached one; the longest accepted delay is out of range at once |
| `TimerWheels.InsertPlaced` | dp/core/timer.c:111-143 | inserting a timer keeps every pending timer in the bucket of its slot, with that slot between the next one to process and 255 ahead of it |
| `TimerWheels.AddLands` | dp/core/timer.c:152-171 | a freshly added timer lands in a slot that is still to come, on whichever wheel it goes |
| `TimerWheels.ReinsertPlaced` | dp/core/timer.c:233-257 | re-inserting a whole bucket fires what is due, places the rest ahead of the position and makes nothing early |
| `TimerWheels.CascadePlaced` | dp/core/timer.c:264-283 | draining one bucket of a coarse wheel at a wrap completes exactly that slot: all else on the wheel is later, and what came out lies ahead |
| `TimerWheels.CollapsePlaced` | dp/core/timer.c:264-283 | the cascade of one or both coarse wheels advances exactly the slots that wrap at this position |
| `TimerWheels.RunBucketPlaced` | dp/core/timer.c:213-231 | running a bucket of the finest wheel fires only timers of the slot being processed |
| `TimerWheels.TickPlaced` | dp/core/timer.c:292-309 | one turn of the loop keeps the placement invariant and finishes one slot |
| `TimerWheels.RunFromPlaced` | dp/core/timer.c:292-309 | the placement invariant and the firing log survive a catch-up of any length |
| `TimerWheels.RunFromPosition` | dp/core/timer.c:292-309 | the loop stops at the first position past the clock, with the same offset from the bucket boundary it started from |
| `TimerWheels.ReinsertAccounted` | dp/core/timer.c:233-257 | a re-insertion neither loses nor duplicates a timer |
| `TimerWheels.CascadeAccounted` | dp/core/timer.c:264-283 | a cascade neither loses nor duplicates a timer |
| `TimerWheels.TickAccounted` | dp/core/timer.c:292-309 | a turn of the loop neither loses nor duplicates a timer |
| `TimerWheels.RunFromAccounted` | dp/core/timer.c:292-309 | pending plus fired is the same multiset before and after a catch-up of any length |
| `TimerWheels.ApplyKeepsInvariant` | dp/core/timer.c:152-309 | each add and each run keeps the wheel invariant |
| `TimerWheels.ExecKeepsInvariant` | dp/core/timer.c:152-309 | every history of adds and runs keeps the wheel invariant and the offset of the position from the bucket boundary |
| `TimerWheels.ExecAccounted` | dp/core/timer.c:152-309 | over every history, pending plus fired grows by exactly what was added |
| `TimerWheels.NeverLate` | dp/core/timer.c:292-309 | under the invariant no pending timer is overdue by a bucket and nothing fired 4080 us or more ahead of time |
| `TimerWheels.Conservation` | dp/core/timer.c:152-309 | over every history, from any start and on all three wheels: each added timer is pending once or fired once, a pending one has expires + 16 at or after the position rounded down to a bucket, and the position stays within a bucket of the clock and keeps its offset from the bucket boundary |
| `TimerOrder.LastAddedFirst` | dp/core/timer.c:111-231 | timers added to any state and run for one bucket: of those that belong in it the handlers run in the opposite order of adding, then those of the timers there before, and no others |
| `TimerOrder.ReinsertOrder` | dp/core/timer.c:233-256 | a cascade runs the handlers of expired timers in the order of the list, and the others follow one another in their new buckets in the opposite order, in front of what was there |
| `TimerWheels.TimelyIsOnTime` | dp/core/timer.c:111-309 | from an aligned start with delays below 2^20, and from any start with delays below 4096 minus its offset, no handler ever runs before its timer expires, in any history, however far a run has to catch up |
| `TimerWheels.UnalignedFiresEarly` | dp/core/timer.c:463-469 | from a start r us past a bucket boundary, r > 0, a rounded delay of 4096 - r is enough for a history in which a handler runs too early |
| `TimerWheels.CoarsestWheelFiresEarly` | dp/core/timer.c:233-283 | from every aligned start there is one as soon as rounded delays may reach 2^20: the cascade out of the coarsest wheel chooses its slot relative to the clock, not to the position |
| `TimerWheels.SafeExactly` | dp/core/timer.c:111-309 | for every start and every bound on the rounded delays: handlers are never early if and only if the start is a multiple of 16 and no delay reaches the coarsest wheel, or all delays are below 4096 minus the offset of the start from the bucket boundary |
| `TimerWheels.TimerWheel.constructor` | dp/core/timer.c:463-469 | an empty wheel whose position is the clock, aligned or not |
| `TimerWheels.TimerWheel.TimerInsert` | dp/core/timer.c:111-143 | the in-place insertion is the specified one and touches one bucket |
| `TimerWheels.TimerWheel.TimerAdd` | dp/core/timer.c:152-171 | fails exactly for delays of 2^28 us and more; the deadline is taken from the real clock, the bucket from the cached one |
| `TimerWheels.TimerWheel.TimerAddForNextTick` | dp/core/timer.c:204-210 | inserts a timer due one bucket after the cached clock |
| `TimerWheels.TimerWheel.RunBucket` | dp/core/timer.c:213-231 | empties the bucket and fires all of it, in list order |
| `TimerWheels.TimerWheel.ReinsertBucket` | dp/core/timer.c:233-257 | empties the bucket, fires what is due, re-inserts the rest and counts all of it |
| `TimerWheels.TimerWheel.TimerCollapse` | dp/core/timer.c:264-283 | cascades wheel 1, and wheel 2 too when wheel 1 wraps |
| `TimerWheels.TimerWheel.RunSlot` | dp/core/timer.c:298-305 | one turn of the loop over the buckets is the specified turn |
| `TimerWheels.TimerWheel.TimerRun` | dp/core/timer.c:292-309 | the whole in-place pass is the recursive specification on which the theorems above are proved |
| `TcpReceive.SeqCompareAgrees` | inc/lwip/lwip/tcp_impl.h:114-122 | the signed 32-bit difference of wrapped sequence numbers is the difference of the unwrapped ones if and only if that is at least -2^31 and below 2^31; then the comparisons are right |
| `TcpReceive.SeqCompareBreaks` | inc/lwip/lwip/tcp_impl.h:114-122 | from there up to a whole revolution the comparisons give the opposite answer |
| `TcpReceive.SpliceOrdered` | dp/net/tcp_in.c:931-963 | putting a segment in front of later ones, dropping what it covers and trimming its overlap, leaves a sorted queue without overlap |
| `TcpReceive.SpliceHolds` | dp/net/tcp_in.c:931-963 | what the splice holds is exactly the bytes of the segment and of the queue |
| `TcpReceive.SpliceCut` | dp/net/tcp_in.c:931-963 | every byte in it is still the byte of the stream at its place |
| `TcpReceive.PlaceOrdered` | dp/net/tcp_in.c:1544-1646 | the walk through the out-of-order queue leaves it strictly sorted, free of overlap, starting with the earlier of the two heads |
| `TcpReceive.PlaceHolds` | dp/net/tcp_in.c:1544-1646 | an arrival that fits the window and lies strictly inside no queued segment adds exactly its bytes and loses none |
| `TcpReceive.PlaceLoses` | dp/net/tcp_in.c:1544-1646 | an arrival strictly inside a queued segment cuts that segment short: the first byte behind the arrival is gone |
| `TcpReceive.PlaceCut` | dp/net/tcp_in.c:1544-1646 | the queue keeps consisting of bytes of the stream at their places |
| `TcpReceive.PlaceFits` | dp/net/tcp_in.c:1544-1646 | an arrival within the window leaves everything queued within the window |
| `TcpReceive.EnqueueExactly` | dp/net/tcp_in.c:1524-1647 | queueing an arrival that fits the window keeps every byte received so far if and only if it does not lie strictly inside a queued segment |
| `TcpReceive.MergeSound` | dp/net/tcp_in.c:1389-1440 | the in-sequence segment, after it has taken over what it covers, ends before the rest of the queue, which stays sorted and part of the stream |
| `TcpReceive.MergeHolds` | dp/net/tcp_in.c:1389-1440 | together they hold exactly the bytes they held before |
| `TcpReceive.InOrderInvariant` | dp/net/tcp_in.c:1361-1523 | delivering an in-sequence segment and draining the queue keeps the receive invariant |
| `TcpReceive.InOrderKnown` | dp/net/tcp_in.c:1361-1523 | and the bytes delivered or queued grow by exactly those of the segment |
| `TcpReceive.InOrderWindow` | dp/net/tcp_in.c:1442-1448 | in-order delivery, with everything it drains, leaves rcv_nxt + rcv_wnd and the announced edge where they were |
| `TcpReceive.ReceiveInvariant` | dp/net/tcp_in.c:1267-1647 | any arrival cut from the stream keeps the invariant, whatever its order, overlap, repetition or size and whether or not memory was found |
| `TcpReceive.ReceiveKnown` | dp/net/tcp_in.c:1267-1647 | an arrival that is kept whole adds exactly its bytes |
| `TcpReceive.ReceiveWindowOk` | dp/net/tcp_in.c:1267-1647 | an arrival within the announced edge leaves the window non-negative and nothing queued beyond it |
| `TcpReceive.ReceiveEdge` | dp/net/tcp_in.c:1267-1647 | no arrival of any kind moves the announced edge left or the right edge of the window at all |
| `TcpReceive.ReassemblySafe` | dp/net/tcp_in.c:1267-1647 | over every run (section 3.9 of RFC 793): what was passed up is a prefix of the stream ending at rcv_nxt, the FIN is reported only after all of it, the queue is strictly sorted, free of overlap and above rcv_nxt |
| `TcpReceive.ReassemblyComplete` | dp/net/tcp_in.c:1267-1647 | over every run in which arrivals were kept whole, what was passed up is exactly the longest prefix of the stream that has arrived |
| `TcpReceiveExact.ReceiveKnownExactly` | dp/net/tcp_in.c:1267-1647 | which bytes are delivered or queued after any arrival, kept whole or not, clipped or not: those before, but for the rest of a queued segment that it lies strictly inside of, and those of the arrival up to where it is clipped, if it is in the window and memory was found |
| `TcpReceiveExact.ReceiveFinExactly` | dp/net/tcp_in.c:1267-1647 | the FIN is known after any arrival if and only if it was before, or the arrival carries it and is neither dropped as no longer than what is queued at its start, nor clipped, nor outside the window, nor lost for want of memory; so it is never forgotten once known |
| `TcpReceiveExact.FinExactly` | dp/net/tcp_in.c:1267-1647 | over every run with arrivals of any kind: the FIN is reported if and only if the whole stream has been delivered and the FIN of some arrival was taken in |
| `TcpReceiveExact.FinComplete` | dp/net/tcp_in.c:1267-1647 | over every run in which arrivals were kept whole: the FIN is reported if and only if every byte has arrived and a FIN was taken in, and, if no FIN came with data that was queued already, if and only if every byte and a FIN have arrived |
| `TcpReceiveExact.FinForgotten` | dp/net/tcp_in.c:1546-1570 | from every opened connection there is a run in which every byte and the FIN arrive and are kept and no FIN is reported: the last byte out of sequence, the same byte with the FIN, then the rest |
| `TcpReceiveExact.AdvancesExactly` | dp/net/tcp_in.c:1267-1647 | rcv_nxt moves if and only if it lies in the arrival, a FIN on its own included, and the window is open; otherwise window and announced window stay and an acknowledgement announces the latter |
| `TcpReceiveExact.AnnouncedExactly` | dp/net/tcp.c:677-741 | over every run in which no arrival is queued past the window: rcv_wnd is TCP_WND less what was received and not given back by tcp_recved, and the next header announces the full edge if that is worth it, else the edge announced last |
| `TcpReceive.EdgeNeverRetreats` | dp/net/tcp.c:677-741 | over every interleaving of arrivals, consumption and output the announced right edge never moves left (section 4.2.2.16 of RFC 1122) |
| `TcpReceive.WindowNeverOverrun` | dp/net/tcp_in.c:1361-1647 | with a peer that stays within the announced edge, over every run rcv_wnd stays between 0 and TCP_WND, nothing queued lies beyond the window, and no more is announced than there is |
| `TcpReceive.QueueWithinExactly` | dp/net/tcp_in.c:1524-1647 | queueing an out-of-order arrival leaves the queue within the window if and only if the arrival ends within it, is placed behind the last queued segment, or starts like a queued one without having more data |
| `TcpReceive.PlaceOverruns` | dp/net/tcp_in.c:1544-1646 | in every other branch of the walk an arrival past the window stays past it |
| `TcpReceive.PlaceClips` | dp/net/tcp_in.c:1604-1646 | behind the last queued segment the arrival is clipped |
| `TcpReceive.InOrderClipped` | dp/net/tcp_in.c:1361-1523 | an in-sequence arrival of any length leaves the window sound |
| `TcpReceive.OverrunExactly` | dp/net/tcp_in.c:1267-1647 | any arrival of the stream, in order or not, leaves the window sound if and only if it is not queued past it |
| `TcpReceive.WindowExactly` | dp/net/tcp_in.c:1267-1647 | over every run, with any peer: the window is sound at every step if and only if no arrival is queued past it |
| `TcpReceive.OverrunGoesNegative` | dp/net/tcp_in.c:1442-1483 | for every n, every connection and every segment size there is a run from the opened connection that ends with rcv_wnd at -n: one arrival at the right edge of the window, then the bytes below it |
| `TcpReceive.WireEdgeExact` | dp/net/tcp_out.c:1134-1147 | over every run, a header whose field carries the announced window exactly shows an edge no earlier header has exceeded |
| `TcpReceive.WireEdgeExactly` | dp/net/tcp_out.c:1134-1147 | for every scale: over all runs with a peer that stays within the window, no header shows a smaller edge than one before it if and only if the scale makes the field zero always; so for no scale up to 14 (section 2.3 of RFC 1323) |
| `TcpReceive.RetreatsWhenScaled` | dp/net/tcp_out.c:1134-1147 | for every scale from 1 to 21 there is a run in which one byte received moves the edge the peer reads to the left |
| `TcpReceive.RetreatsUnscaled` | dp/net/tcp_out.c:1134-1147 | without scaling there is one in which the edge jumps left when the application has consumed what was received |
| `TcpReceive.HeaderWindow` | dp/net/tcp.c:677-741 | of two headers of such a run the later one announces no smaller edge, and neither more than TCP_WND |
| `TcpReceive.OosInsertSegment` | dp/net/tcp_in.c:931-963 | the loop over the covered segments computes the splice, so it keeps order and bytes |
| `TcpReceive.QueueOutOfOrder` | dp/net/tcp_in.c:1524-1647 | the walk with its six branches computes the queue the theorems on order, loss and window are about |
| `TcpReceive.PruneQueue` | dp/net/tcp_in.c:1389-1440 | the loop takes over the covered part of the queue as the merge does, so no byte is lost |
| `TcpReceive.Receiver.constructor` | dp/net/tcp.c:1476-1498 | a connection that has received nothing, with the full window announced |
| `TcpReceive.Receiver.UpdateRcvAnnWnd` | dp/net/tcp.c:677-701 | the announced window never shrinks below the announced edge; the result is how far an announcement would move the edge |
| `TcpReceive.Receiver.TcpRecved` | dp/net/tcp.c:710-741 | the window grows back by what was consumed, up to TCP_WND, or, if it is still below zero after an overrun, jumps to TCP_WND because the comparison is unsigned; it is announced at once exactly when that moves the edge by a quarter of TCP_WND |
| `TcpReceive.Receiver.PassUp` | dp/net/tcp_in.c:1442-1469 | a segment handed up moves rcv_nxt and the window by its length, a FIN included, and the announced window follows |
| `TcpReceive.Receiver.DrainQueue` | dp/net/tcp_in.c:1471-1511 | everything the queue can contribute is handed up, until a gap |
| `TcpReceive.Receiver.ReceiveInOrder` | dp/net/tcp_in.c:1361-1523 | the in-sequence branch on the fields of the pcb is the specified one |
| `TcpReceive.Receiver.TcpReceive` | dp/net/tcp_in.c:1267-1647 | the payload part of tcp_receive on the fields of the pcb is the step that `ReceiveKnownExactly`, `ReceiveFinExactly` and `AdvancesExactly` describe for every arrival |
| `TcpSend.WriteAllOrNothing` | dp/net/tcp_out.c:386-744 | with success exactly the data lies behind the bytes of the unsent queue, which is otherwise unchanged, in segments of at most the local MSS that continue it without a gap, and snd_queuelen counts the buffers; otherwise nothing changed but the note of a memory error. ERR_CONN if and only if the state does not allow writing, ERR_MEM if and only if the bytes, the buffers or the allocations the write takes are too many |
| `TcpSend.JoinedIs` | dp/net/tcp_out.c:456-543 | what goes into the last unsent segment is what there is room for up to the local MSS, and a buffer is chained to it if and only if the bytes do not fit behind those there |
| `TcpSend.FitsExactly` | dp/net/tcp_out.c:456-649 | the three phases succeed if and only if the room, the number of full segments and the memory work out |
| `TcpSend.WrittenAppended` | dp/net/tcp_out.c:651-713 | the committed queue is the old one with its last segment filled up and the rest of the data in new segments behind it |
| `TcpSend.WrittenKeeps` | dp/net/tcp_out.c:386-744 | filling the tail of the last segment, chaining to it and appending new ones keeps the invariant |
| `TcpSend.WriteKeeps` | dp/net/tcp_out.c:386-744 | every write, successful or not, keeps the invariant |
| `TcpSend.BufferOverrunExactly` | dp/net/tcp_out.c:154-172 | the free space is between 0 and TCP_SND_BUF, one more if and only if a FIN that was added to a data segment has been acknowledged |
| `TcpSend.PiggybackKeeps` | dp/net/tcp_out.c:154-172 | adding a FIN to the last unsent segment keeps the invariant without charging the buffer |
| `TcpSend.EnqueueFinKeeps` | dp/net/tcp_out.c:756-862 | a FIN of its own keeps the invariant and is charged to buffer and queue |
| `TcpSend.SendFinKeeps` | dp/net/tcp_out.c:154-172 | either way of closing keeps the invariant |
| `TcpSend.SendOneKeeps` | dp/net/tcp_out.c:1055-1103 | sending a segment moves it from the front of the unsent to the end of the unacknowledged queue and keeps the invariant |
| `TcpSend.OutputExactly` | dp/net/tcp_out.c:961-1114 | tcp_output sends a front part of the unsent queue, each segment within min(snd_wnd, cwnd) of lastack, appends it in order to the unacknowledged queue, and stops only at the window, at the Nagle rule or when nothing is left |
| `TcpSendExact.OutputSends` | dp/net/tcp_out.c:961-1114 | output sends a segment of the unsent queue if and only if its data ends within min(snd_wnd, cwnd) of lastack and it is not the last one, short, behind unacknowledged data, without TCP_NODELAY, FIN, memory error or full buffer (RFC 896) |
| `TcpSendExact.OutputIs` | dp/net/tcp_out.c:961-1114 | tcp_output as a whole: just those segments move over in order, snd_nxt goes to their end if that is further, the memory error is cleared, and nothing else changes; or nothing at all if only an acknowledgement is due |
| `TcpSendExact.TimeoutRequeues` | dp/net/tcp_out.c:1335-1366 | after a timeout nothing is unacknowledged, and the unsent queue covers everything from the first unacknowledged segment on without gap, with the unacknowledged bytes followed by the unsent ones |
| `TcpSendExact.TimeoutResends` | dp/net/tcp_out.c:1335-1366 | after the output of a timeout, segment i of both queues is unacknowledged again if and only if it lies in the window and the Nagle rule does not hold it back, which it never does the first |
| `TcpSendExact.AckExactly` | dp/net/tcp_in.c:1003-1229 | an acknowledgement within what was sent leaves exactly the segments that end beyond it in both queues, gives back to the buffer what lies in between and reports its bytes without the FIN; any other changes no more than the window |
| `TcpSendExact.CloseExactly` | dp/net/tcp_out.c:154-172 | closing succeeds if and only if there is an unsent segment or room in queue, buffer and memory for a new one; then the FIN is behind all bytes on the last unsent segment, else nothing but a memory error is noted |
| `TcpSendExact.HandshakeCompletes` | dp/net/tcp.c:855-860 | whatever happened before, a SYN made, sent and acknowledged completes the handshake |
| `TcpSendExact.SynAckedExactly` | dp/net/tcp_in.c:761-767 | the SYN is acknowledged if and only if the number after it arrives once it has been sent |
| `TcpSend.OutputKeeps` | dp/net/tcp_out.c:961-1114 | tcp_output keeps the invariant, whatever the window lets out |
| `TcpSend.RexmitRtoKeeps` | dp/net/tcp_out.c:1335-1366 | putting all unacknowledged segments back in front of the unsent ones keeps the invariant |
| `TcpSend.AckFins` | dp/net/tcp_in.c:1003-1229 | what an acknowledgement removes from both queues contains the FIN exactly when it covers more than the data |
| `TcpSend.AckKeeps` | dp/net/tcp_in.c:1003-1229 | any acknowledgement, old, new, partial or of unsent data, keeps the invariant |
| `TcpSend.PiggybackedFinOverruns` | dp/net/tcp_in.c:1111-1119 | the acknowledgement of a FIN added to a data segment takes snd_buf one above TCP_SND_BUF |
| `TcpSend.RexmitThenSend` | dp/net/tcp_out.c:1375-1413 | tcp_rexmit followed at once by sending the segment leaves the connection as it was, both in-order insertions included |
| `TcpSend.WriteAfterRexmitExactly` | dp/net/tcp_out.c:1375-1413 | for every state: a write while a retransmitted segment waits keeps the queues in order and free of overlap if and only if it fails, is empty, or the waiting segment is not the last unsent one, is the only unacknowledged one, or is full |
| `TcpSend.CloseAfterRexmitExactly` | dp/net/tcp_out.c:154-172 | closing then keeps them in order if and only if the waiting segment is not the last unsent one or is the only unacknowledged one; that it is full does not help |
| `TcpSend.TimeoutAfterRexmitExactly` | dp/net/tcp_out.c:1335-1366 | a timeout then keeps them in order if and only if no other segment is unacknowledged |
| `TcpSend.RexmitInLine` | dp/net/tcp_out.c:1375-1413 | the requeueing alone keeps every queued byte in one place and both queues sorted |
| `TcpSend.WriteCommutes` | dp/net/tcp_out.c:386-744 | if the order is kept, a write behind the waiting segment does to the queues what it would have done before the retransmission |
| `TcpSend.AckBeyond` | dp/net/tcp_in.c:1003-1229 | an acknowledgement of the waiting segment leaves the connection as if it had not waited |
| `TcpSend.AckBefore` | dp/net/tcp_in.c:1003-1229 | any other acknowledgement commutes with the retransmission |
| `TcpSend.OutputWaiting` | dp/net/tcp_out.c:961-1114 | output sends the waiting segment, and then the connection is in line again, or leaves it waiting |
| `TcpSend.FastSound` | dp/net/tcp_out.c:1421-1453 | a fast retransmission ends in line or with the one segment waiting |
| `TcpSend.FastKeeps` | dp/net/tcp_out.c:1421-1453 | a fast retransmission whose segment the window lets out keeps the invariant and ends where plain output would |
| `TcpSend.ApplyKeeps` | dp/net/tcp_out.c:154-1453 | each of the seven kinds of step leads from a sound state, in line or with one segment waiting, to a sound state |
| `TcpSend.SendInvariant` | dp/net/tcp_out.c:154-1453 | over every run of writes, closing, output, timeouts, fast retransmissions (sent at once or kept waiting by the window) and acknowledgements, without the steps that the three lemmas on a waiting segment show to break the order: every queued byte has its place and is queued once, the two queues tile the unacknowledged part of the stream but for one segment that may wait, snd_queuelen counts the buffers, snd_buf + (snd_lbb - lastack) == TCP_SND_BUF, and exactly the acknowledged bytes have been reported |
| `TcpSend.HandshakeAccounts` | dp/net/tcp_in.c:758-788 | through every handshake, active or passive, with failed, lost and repeated SYNs: snd_buf + (snd_lbb - lastack) == TCP_SND_BUF, and once the SYN is acknowledged the counters are those of an established connection |
| `TcpSendRuns.AccountsAlways` | dp/net/tcp_out.c:154-1453 | over every run of all kinds of step, in any order and in any state of the queues: snd_queuelen counts the buffers and snd_buf + (snd_lbb - lastack) == TCP_SND_BUF |
| `TcpSendRuns.OrderLost` | dp/net/tcp_out.c:1375-1453 | from an established connection there is a run, two bytes sent apart and a fast retransmission that the window blocks, after which a write, closing and a timeout each put the queues out of order |
| `TcpSendRuns.BufferOverrun` | dp/net/tcp_out.c:154-172 | from an established connection there is a run, a byte and a FIN added to its segment, sent and acknowledged, that ends with snd_buf one above TCP_SND_BUF |
| `TcpSend.AffordableExactly` | dp/net/tcp_out.c:551-649 | the queue-length and memory tests inside the loop fail somewhere if and only if the whole write needs too much |
| `TcpSend.MakeSegments` | dp/net/tcp_out.c:551-649 | the loop makes consecutive segments of at most the local MSS, or fails exactly when they cannot be afforded |
| `TcpSend.MakeFullSegments` | dp/net/tcp_out.c:551-649 | with a positive local MSS the loop fails if and only if the segments cannot be afforded, and otherwise makes exactly them |
| `TcpSend.MakeEmptySegments` | dp/net/tcp_out.c:551-649 | without a window from the peer the loop makes empty segments until it fails, unless nothing is left to write |
| `TcpSend.InsertInOrder` | dp/net/tcp_out.c:1385-1396 | the walk puts a segment before the first one that does not start lower |
| `TcpSend.Sender.constructor` | dp/net/tcp.c:1476-1498 | an established connection with empty queues and the whole buffer free |
| `TcpSend.Sender.Checks` | dp/net/tcp_out.c:326-368 | the checks before a write, with the memory-error flag set exactly for ERR_MEM |
| `TcpSend.Sender.JoinLast` | dp/net/tcp_out.c:456-543 | how much goes into the unused tail of the last segment and how much is chained to it |
| `TcpSend.Sender.TcpWrite` | dp/net/tcp_out.c:386-744 | the three-phase write on the fields of the pcb is the specified one |
| `TcpSend.Sender.WriteChecked` | dp/net/tcp_out.c:422-744 | after the checks, the outcome is success exactly when memory and queue suffice, and a failure leaves the queues alone |
| `TcpSend.Sender.Commit` | dp/net/tcp_out.c:651-713 | queue, counters and stream change together, by exactly the data |
| `TcpSend.Sender.ExtendLast` | dp/net/tcp_out.c:656-696 | the last unsent segment gets exactly the bytes that fit, from the front of the data, and the unused space behind it is right |
| `TcpSend.Sender.SendFirst` | dp/net/tcp_out.c:1055-1103 | the first unsent segment becomes unacknowledged at its place by sequence number, and snd_nxt never moves back |
| `TcpSend.Sender.TcpOutput` | dp/net/tcp_out.c:961-1114 | with an acknowledgement due and nothing that can go out with it nothing else happens; otherwise the output loop runs as specified |
| `TcpSend.Sender.SendUnsent` | dp/net/tcp_out.c:1031-1114 | the loop on the fields of the pcb sends what the specification sends, and forgets the memory error |
| `TcpSend.Sender.TcpSendFin` | dp/net/tcp_out.c:154-172 | adds the FIN to the last unsent segment or queues one of its own |
| `TcpSend.Sender.EnqueueFlags` | dp/net/tcp_out.c:756-862 | a FIN segment is queued and charged, or the queues are left alone |
| `TcpSend.Sender.TcpRexmitRto` | dp/net/tcp_out.c:1335-1366 | the step of `TimeoutRequeues` on the pcb, followed by output: `TimeoutResends` says which segments are sent again |
| `TcpSend.Sender.TcpRexmit` | dp/net/tcp_out.c:1375-1413 | the first unacknowledged segment goes back into the unsent queue by sequence number |
| `TcpSend.Sender.DropCovered` | dp/net/tcp_in.c:1146-1172 | the loop counts the segments from the front that the acknowledgement covers, their buffers and their FINs |
| `TcpSend.Sender.CountCovered` | dp/net/tcp_in.c:1146-1229 | what an acknowledgement covers of both queues, with its buffers and FINs |
| `TcpSend.Sender.ReleaseSegments` | dp/net/tcp_in.c:1111-1229 | buffer space, lastack and the report change by what was acknowledged |
| `TcpSend.Sender.UpdateWindow` | dp/net/tcp_in.c:1003-1030 | the peer window, and the largest ever seen, which bounds the segments made |
| `TcpSend.Sender.ProcessAck` | dp/net/tcp_in.c:1003-1229 | the acknowledgement part on the fields of the pcb is the specified step |
| `TcpSend.Sender.ReceiveAck` | dp/net/tcp_in.c:1003-1229 | the step keeps the invariant and returns exactly the bytes to be reported to the application |
| `Crc32.EntryStep` | dp/core/blk_index.c:122-133 | the recurrence of init_crc gives, in table k + 1, what eight more updates make of table k |
| `Crc32.ByteShift` | dp/core/blk_index.c:112-135 | shifting a byte in bit by bit is adding it to the register and updating eight times |
| `Crc32.ShiftIsFeed` | dp/core/blk_index.c:137-162 | shifting a string in bit by bit is feeding it to the register byte by byte |
| `Crc32.FeedWord` | dp/core/blk_index.c:141-155 | four bytes can be added to the register at once as a little-endian word |
| `Crc32.SliceStep` | dp/core/blk_index.c:141-155 | the sum of eight look-ups in eight tables advances the register over eight bytes |
| `Crc32.TailStep` | dp/core/blk_index.c:156-159 | one look-up in table 0 advances it over one byte |
| `Crc32.CrcIsWord` | dp/core/blk_index.c:137-162 | the bit-at-a-time checksum fits in 32 bits for every string |
| `Crc32.OneByteDetected` | dp/core/blk_index.c:137-162 | any change of a single byte, anywhere in any string, changes the checksum |
| `Crc32.BurstDetected` | dp/core/blk_index.c:137-162 | so does any change within four consecutive bytes |
| `Crc32.BitBurstDetected` | dp/core/blk_index.c:137-162 | so does any burst of up to 32 bits, wherever in a byte it begins |
| `Crc32.CrcTables.constructor` | dp/core/blk_index.c:112-135 | after construction every entry of the eight tables is right |
| `Crc32.CrcTables.InitCrc` | dp/core/blk_index.c:112-135 | every entry of the eight tables is what 8(k + 1) updates make of its index |
| `Crc32.CrcTables.FirstEntry` | dp/core/blk_index.c:114-120 | the inner loop is eight updates of the byte |
| `Crc32.CrcTables.FillFirst` | dp/core/blk_index.c:114-120 | every entry of table 0 is eight updates of its index |
| `Crc32.CrcTables.FillRest` | dp/core/blk_index.c:122-133 | from a right table 0, every entry of tables 1 to 7 is right |
| `Crc32.CrcTables.FillColumn` | dp/core/blk_index.c:122-133 | the seven entries of one index are right, and no other entry has changed |
| `Crc32.CrcTables.NextEntry` | dp/core/blk_index.c:122-133 | shifting an entry and adding the one its low byte selects in table 0 is eight more updates |
| `Crc32.CrcTables.Slice` | dp/core/blk_index.c:141-155 | the slicing step equals feeding eight bytes one by one |
| `Crc32.CrcTables.SumLookups` | dp/core/blk_index.c:141-155 | the eight entries read are those the linearity argument adds up |
| `Crc32.CrcTables.TailByte` | dp/core/blk_index.c:156-159 | a byte by one look-up is eight updates of the register with the byte added |
| `Crc32.CrcTables.FeedBlocks` | dp/core/blk_index.c:141-155 | what is left to feed after the first loop gives the register of the whole string |
| `Crc32.CrcTables.FeedTail` | dp/core/blk_index.c:156-159 | the second loop is byte-wise feeding of the rest |
| `Crc32.CrcTables.NewerCrc` | dp/core/blk_index.c:137-162 | on every byte string the result is the bit-at-a-time reflected CRC-32 with polynomial 0xEDB88320 and both complements (section 8 of RFC 1952) |
| `InetChecksum.SumEven` | dp/lwip/inet_chksum.c:104-139 | the one's-complement sum of a concatenation is the sum of the parts when the first is even |
| `InetChecksum.SumOdd` | dp/lwip/inet_chksum.c:535-557 | and with the second part swapped when the first is odd |
| `InetChecksum.SumAfterByte` | dp/lwip/inet_chksum.c:158-198 | one byte in front swaps the sum of everything behind it |
| `InetChecksum.SwapAdd` | inc/lwip/lwip/inet_chksum.h:64-76 | swapping bytes commutes with end-around-carry addition |
| `InetChecksum.SwapMeaning` | inc/lwip/lwip/inet_chksum.h:64-76 | the byte-by-byte definition of the swap used in the proofs is the macro |
| `InetChecksum.FoldTwice` | inc/lwip/lwip/inet_chksum.h:64-76 | two folds reduce any 32-bit accumulator to its one's-complement value |
| `InetChecksum.ChainNext` | dp/lwip/inet_chksum.c:535-557 | one buffer more keeps the accumulator equal to the sum of all bytes so far, swapped while their number is odd |
| `InetChecksum.ChecksumVerifies` | dp/lwip/inet_chksum.c:535-557 | a message that carries its own checksum at an even place sums to all ones |
| `InetChecksum.SumNetwork` | dp/lwip/inet_chksum.c:111-129 | the loop of algorithm 1, in network byte order, within 32 bits |
| `InetChecksum.Chksum1` | dp/lwip/inet_chksum.c:104-139 | algorithm 1 is the one's-complement sum for all lengths of a u16_t |
| `InetChecksum.SumWords` | dp/lwip/inet_chksum.c:172-177 | the 16-bit loop adds the words of the even part, within a bound that keeps the accumulator from wrapping |
| `InetChecksum.FoldAndSwap` | dp/lwip/inet_chksum.c:179-198 | the common end: adding the end bytes, folding and swapping back |
| `InetChecksum.Chksum2` | dp/lwip/inet_chksum.c:158-198 | algorithm 2 is the same sum from any address, up to 128 KiB |
| `InetChecksum.SumLongs` | dp/lwip/inet_chksum.c:236-250 | the unrolled 32-bit loop, adding carries back, keeps the one's-complement sum |
| `InetChecksum.Chksum3` | dp/lwip/inet_chksum.c:214-280 | algorithm 3 is the same sum from any address and for any length |
| `InetChecksum.AddPbuf` | dp/lwip/inet_chksum.c:544-551 | after one buffer more, the accumulator is the sum of all bytes so far, swapped while their number is odd |
| `InetChecksum.InetChksumPbuf` | dp/lwip/inet_chksum.c:535-557 | however the data is split and aligned, odd lengths included, the result is the complemented sum of the concatenation (section 2 of RFC 1071) |
| `InetChecksum.PseudoHeaderSum` | dp/lwip/inet_chksum.c:324-340 | two additions with rippling carries and a fold give the one's-complement value of the wide sum |
| `InetChecksum.InetChksumPseudo` | dp/lwip/inet_chksum.c:324-360 | the result is the one's-complement sum of the bytes of the pseudo-header: both addresses, zero, protocol and length |
| `FreeLists.CanonicalUnique` | dp/core/blk_freelist.c:31-176 | two sorted lists of positive, separated extents with the same free blocks are the same list |
| `FreeLists.FirstFit` | dp/core/blk_freelist.c:87-109 | no extent before it is large enough, and it is if there is one |
| `FreeLists.Holding` | dp/core/blk_freelist.c:31-45 | no extent before it holds the block, and it does if one does |
| `FreeLists.FirstAbove` | dp/core/blk_freelist.c:137-150 | no extent before it starts above the block, and it does if one does |
| `FreeLists.GetBlkTakes` | dp/core/blk_freelist.c:87-109 | get_blk removes exactly the range it returns, all of it free, keeps the list canonical, and fails only by changing nothing |
| `FreeLists.GetBlkLowest` | dp/core/blk_freelist.c:87-109 | it succeeds whenever a free range of that size exists, and none starts lower |
| `FreeLists.GetBlkFromStart` | dp/core/blk_freelist.c:87-109 | the block before the range get_blk returns was not free |
| `FreeLists.AllocBlockTakes` | dp/core/blk_freelist.c:31-59 | alloc_block of a free range removes exactly that range |
| `FreeLists.FreeBlkIsMerge` | dp/core/blk_freelist.c:114-176 | in each of its four cases free_blk replaces its neighbours and the range by one extent |
| `FreeLists.FreeBlkGives` | dp/core/blk_freelist.c:137-176 | free_blk of a used range with a free extent above it adds exactly that range and keeps the list canonical |
| `FreeLists.GetThenFree` | dp/core/blk_freelist.c:87-176 | what get_blk took, free_blk gives back: the identical list |
| `FreeLists.AllocThenFree` | dp/core/blk_freelist.c:31-176 | what alloc_block took, free_blk gives back: the identical list |
| `FreeLists.RoomFromFree` | dp/core/blk_freelist.c:137-176 | a free block above is the free extent that free_blk needs |
| `FreeLists.FreeList.constructor` | dp/core/blk_freelist.c:182-189 | exactly the blocks of the device are free |
| `FreeLists.FreeList.GetBlock` | dp/core/blk_freelist.c:87-109 | the in-place search and cut are first fit, so the lowest possible range |
| `FreeLists.FreeList.Alloc` | dp/core/blk_freelist.c:31-59 | the four ways of cutting a range out of an extent, in place |
| `FreeLists.FreeList.FreeBlock` | dp/core/blk_freelist.c:137-176 | the in-place search and merge give back exactly the range |
| `FreeLists.FreeList.CoalesceAt` | dp/core/blk_freelist.c:114-176 | extending a neighbour or inserting, then joining the neighbours if they touch |
| `BlkIndex.LookupExactly` | dp/core/blk_index.c:164-188 | the lookup finds the entry of the very key, or nothing, if and only if no longer key with the same beginning stands in front of it in the chain |
| `BlkIndex.UnambiguousNotShadowed` | dp/core/blk_index.c:164-188 | so it is exact on chains in which no key begins another |
| `BlkIndex.UpdateThenLookup` | dp/core/blk_index.c:300-347 | after an update the new entry is found under its key and every other key finds what it found before |
| `BlkIndex.UpdateMembers` | dp/core/blk_index.c:300-347 | an update puts its entry in the place of the one with its key and keeps all others |
| `BlkIndex.UpdateChainKeys` | dp/core/blk_index.c:300-347 | an update replaces one entry of the same key or appends one at the end |
| `BlkIndex.UpdatePrefixFree` | dp/core/blk_index.c:300-347 | an update keeps a chain free of keys that begin another |
| `BlkIndex.EntryKeptExactly` | dp/core/blk_index.c:300-347 | for any chain with distinct keys: writing a key leaves the entry of another key in place if and only if that is not the first key of the chain that begins with the key written |
| `BlkIndex.FoundKeptExactly` | dp/core/blk_index.c:300-347 | another key finds what it found before if and only if it did not find the displaced entry and, when nothing is displaced and it found nothing, it does not begin the key written |
| `BlkIndex.WrittenFound` | dp/core/blk_index.c:300-347 | whatever the keys, the key written finds the new entry |
| `BlkIndex.DistinctKeptExactly` | dp/core/blk_index.c:300-347 | the keys of a chain stay distinct if and only if the key written was not there behind a longer one that begins with it |
| `BlkIndex.UpdateHolders` | dp/core/blk_index.c:300-347 | an update moves the claim on each block from the displaced entry to the new one, for any keys |
| `BlkIndex.AllHoldersUpdate` | dp/core/blk_index.c:300-347 | the claims on a block over all buckets change by those of the one chain that changed |
| `KvStore.ImageFillsExactly` | dp/core/io.c:126-174 | metadata, value and padding fill exactly the blocks reserved if and only if the part of the value behind the first block is not a positive multiple of the block size; otherwise they run over by one block |
| `KvStore.PlacementExactly` | dp/core/io.c:189-230 | the device write starts at the block allocated for the batch if and only if the batch is a single write |
| `KvStore.AssignTiles` | dp/core/io.c:189-230 | the entries of a flushed batch cover each block of the allocated range exactly once |
| `KvStore.AssignInOrder` | dp/core/io.c:189-230 | entry i starts where the blocks of the entries before it end |
| `KvStore.UpdateBalanced` | dp/core/blk_index.c:300-347 | an index update moves the blocks of a batch entry to the index and those of the displaced entry to the free list, keeping the account of every block |
| `KvStore.UpdateAccounts` | dp/core/blk_index.c:300-347 | for one block and any keys, an update leaves the number of places it is in unchanged |
| `KvStore.CompleteConserves` | dp/core/io.c:248-285 | a completion of any batch leaves every block in one place |
| `KvStore.FlushConserves` | dp/core/io.c:189-230 | a flush of any batch takes its blocks from the free list and leaves every block in one place |
| `KvStore.PutConserves` | dp/core/io.c:126-174 | a put reserves nothing yet |
| `KvStore.ApplyConserves` | dp/core/io.c:126-285 | each kind of step leaves every block in one place |
| `KvStore.ExecConserves` | dp/core/io.c:126-285 | every run does |
| `KvStore.Conservation` | dp/core/io.c:126-285 | over every run, with batches of any size and any keys, each block of the device is in exactly one place: free, in one indexed entry or in one entry in flight; and the free list stays canonical |
| `KvStore.FoundOnDevice` | dp/core/blk_index.c:164-188 | what the index finds lies on the device, on blocks that are not free |
| `KvStore.FlushOne` | dp/core/io.c:189-230 | a flush of one write that fills its blocks reserves them and writes the image there |
| `KvStore.OtherValueKept` | dp/core/dummy_dev.c:119-148 | the device write leaves the value of every entry on other blocks alone |
| `KvStore.OwnValueStored` | dp/core/dummy_dev.c:119-148 | the device write stores the value of the entry in full |
| `KvStore.PutReady` | dp/core/io.c:126-285 | an admissible put can be flushed and the flush completed |
| `KvStore.PutNowIs` | dp/core/io.c:126-285 | the put used in the theorems is the composition of put, flush and completion |
| `KvStore.PutNowSettled` | dp/core/io.c:126-285 | after an admissible put the store is ready for the next one, its chains still without keys that begin another |
| `KvStore.PutNowFind` | dp/core/blk_index.c:164-347 | the index then has the new entry under its key and the old answers under all others |
| `KvStore.PutGet` | dp/core/io.c:90-285 | read your write: the value comes back in full with its length, and every other key that is not a beginning of the one written in its bucket reads as before |
| `KvStore.FlushHidden` | dp/core/io.c:189-230 | until the completion no key reads differently, although the device has been written |
| `KvStore.RefinesMap` | dp/core/io.c:90-285 | over every run of completed puts, a key reads as the last value written under it, or as before the run: the store refines a map |
| `KvRuns.IndexRefines` | dp/core/io.c:126-285 | over any run of puts, flushes and completions with batches of any length: the batch has exactly the puts since the last completion, in order, and a key is found if and only if a put of it was completed, with the length and the checksum of the last one |
| `KvRuns.UpdateFinds` | dp/core/blk_index.c:300-347 | update_index changes what its own key finds, and no other key that does not begin it |
| `KvStore.BatchFitsExactly` | dp/core/dummy_dev.c:119-148 | the size assertion of the device write holds if and only if every write of the batch fills its blocks |
| `KvStore.FlushWritesReserved` | dp/core/io.c:189-230 | with more than one write the device write begins behind the blocks of the first entry, with exactly one at the reserved blocks |
| `KvStore.BatchReads` | dp/core/io.c:189-230 | after the flush of any batch, each entry but the last reads what was on its blocks before, and the last one reads the beginning of the first value of the batch if that is long enough |
| `KvStore.BatchPlaces` | dp/core/io.c:199-226 | all entries but the last end before the block at which the device write starts, and the last begins there |
| `KvStore.PutFindExactly` | dp/core/blk_index.c:164-347 | after any completed put into a bucket of distinct keys, whether or not some begin others: the key written finds the new entry, and another key finds what it found before if and only if the put does not touch it, which the chain before the put tells |
| `KvStore.PutGetAny` | dp/core/io.c:90-285 | likewise, the value is read back in full and every key the put does not touch reads as before |
| `KvStore.PutRemovesExactly` | dp/core/blk_index.c:300-347 | of the other keys of its bucket a completed put removes the one that the key written found before, and no other |
| `Recovery.MetaRoundTrip` | inc/ix/blk.h:31-41 | the metadata of any storable entry, written as 128 bytes, reads back as that entry |
| `Recovery.UpdatableWhileScanning` | dp/core/blk_index.c:393-445 | during the scan there is always a free extent above for the blocks an update gives back |
| `Recovery.TakeKeepsSpace` | dp/core/blk_index.c:393-445 | taking a record in keeps the account of every block and leaves everything from the end of the record on free |
| `Recovery.ReplayKeepsSpace` | dp/core/blk_index.c:451-492 | the scan of a sound image runs through and leaves every block free or in one entry |
| `Recovery.VisitInOrder` | dp/core/blk_index.c:451-492 | the records visited do not overlap and come in order, from what each says of itself alone |
| `Recovery.RecoversSpace` | dp/core/blk_index.c:451-492 | after the scan of any sound image, a block is free if and only if no entry of the index holds it, and none is held twice |
| `Recovery.TakeFinds` | dp/core/blk_index.c:393-445 | a record wins if and only if its checksum is good and its version is higher than what was found before |
| `Recovery.ReplayFinds` | dp/core/blk_index.c:451-492 | the scan finds what a fold over the records of the key finds |
| `Recovery.BestIsBest` | dp/core/blk_index.c:451-492 | that is the earliest good record of the highest version, and nothing exactly when there is no good record |
| `Recovery.BestUnique` | dp/core/blk_index.c:451-492 | no two records can both be the earliest good one of the highest version |
| `Recovery.RecoversBest` | dp/core/blk_index.c:393-492 | after the scan each key finds the earliest good record of its highest version, or nothing if and only if the image has none |
| `Corruption.GoodExactly` | dp/core/blk_index.c:393-445 | for every device and block with the magic number: the record is good if and only if it ends on the device and the CRC-32 of its value, one bit at a time, is the one in its metadata |
| `Corruption.DamageDetected` | dp/core/blk_index.c:137-163 | damage within 32 bits in a row shows in the checksum of a value of any length, shorter than four bytes included |
| `Corruption.BlockDamaged` | dp/core/blk_index.c:393-445 | after such damage to the value of a good record its block reads as the same record, not good |
| `Corruption.VisitDamaged` | dp/core/blk_index.c:451-492 | the scan of the damaged device meets the same records in the same order |
| `Corruption.DamageSkipped` | dp/core/blk_index.c:393-492 | after such damage to a good record of any sound image the scan finds every other key as before, and of its key the newest other good record: nothing if there is none |
| `Recovery.BlockIsRecord` | dp/core/blk_index.c:393-445 | a record is read back, checksum included, where it was written |
| `Recovery.ScanFollowsPuts` | dp/core/blk_index.c:451-492 | the scan of the final device takes the store through the states the puts took it through |
| `Recovery.OrderRebuilt` | dp/core/blk_index.c:451-492 | if each key is put once, the scan rebuilds, beside the free list, every chain with its entries in the order they had |
| `Restart.VisitLaid` | dp/core/blk_index.c:451-492 | among entries that lie apart and records left behind that lie outside of them, the scan meets every entry and nothing else but such records |
| `Restart.ScanFinds` | dp/core/blk_index.c:393-492 | after the scan an entry is found under its key if no other record of the key that the scan can meet has as high a version |
| `Restart.FreeExactly` | dp/core/blk_index.c:300-347 | between batches a block is free if and only if no entry of the index has it |
| `Restart.LaidMore` | dp/core/blk_freelist.c:87-109 | a record written at the start of a free extent keeps the entries apart and every record left behind outside of them |
| `Restart.LaidWithout` | dp/core/blk_index.c:300-347 | when an entry is given up its record is left behind in the same way, if no later block of its value looks like a record |
| `Restart.BlocksWritten` | dp/core/io.c:126-174 | a later block of a written value begins with the magic number if and only if the value has it there |
| `Restart.BlockSame` | dp/core/blk_index.c:393-445 | what is read at a block depends on the blocks its record says it has, and on no others |
| `Restart.PutDurableBy` | dp/core/io.c:126-285 | a completed put of a key below version 65535 keeps the invariant: all entries on the device, every other record outdated |
| `Restart.RestartRebuilds` | dp/core/blk_index.c:451-492 | under the invariant the scan runs through, meets no empty value, and ends with the same entries in every bucket, the same free list, and the invariant again |
| `Restart.DurableMap` | dp/core/blk_index.c:451-492 | over any run of completed puts and of restarts, with keys overwritten and blocks used again, none put beyond version 65535, with an empty value, or with a value that is overwritten later and looks like a record where one of its blocks begins: every restart runs through, and a key reads as the last value written under it |
| `Restart.CrashLosesNothing` | dp/core/blk_index.c:451-492 | a new device and any sequence of completed puts, keys overwritten and blocks used again: if no key is put more than 65535 times and no value that is overwritten looks like a record where one of its blocks begins, the scan rebuilds the entries of every bucket and the free list |
| `Restart.NewestWinsExactly` | dp/core/blk_index.c:238-294 | after any sequence of puts as in `CrashLosesNothing`, one more put is what the next start finds under its key if and only if the key was put fewer than 65535 times before; otherwise it finds the record that was replaced |
| `Restart.EmptyMetExactly` | dp/core/blk_index.c:393-445 | in every state such puts lead to, after one more put the assertion of init_cb that no value is empty holds if and only if the value put is not empty |
| `Restart.WrapLoses` | dp/core/blk_index.c:238-294 | from a new device, 65536 puts of any key: the restart does not rebuild the store |
| `Restart.MarkLoses` | dp/core/blk_index.c:393-445 | from a new device, three puts, of which the second overwrites a value whose second block looks like a large record: after the restart a stored key is not found |
| `Restart.RecoversExactly` | dp/core/blk_index.c:393-492 | for every bound on how often a key is put: restarts always rebuild the store if and only if the bound is at most 65535 and, where overwritten values may look like records, at most 1 |
| `BlkIo.BlockDevice.constructor` | dp/core/dummy_dev.c:51-81 | a new device reads as zeros everywhere |
| `BlkIo.BlockDevice.Copy` | dp/core/dummy_dev.c:119-148 | the bytes of the range are replaced, all others stay |
| `BlkIo.BlockDevice.Writev` | dp/core/dummy_dev.c:119-148 | the entries land one behind the other from the given block on |
| `BlkIo.KeyLookup` | dp/core/blk_index.c:164-188 | the walk through the chain finds the first match |
| `BlkIo.UpdateBucket` | dp/core/blk_index.c:300-347 | the walk replaces the first match or appends, and returns what it displaced |
| `BlkIo.AssignBlocks` | dp/core/io.c:199-214 | the loop gives each entry its blocks, and ends with its running start, not with the block it began at |
| `BlkIo.Gather` | dp/core/io.c:150-160 | three scatter-gather entries a write flatten to its image |
| `BlkIo.BlockStore.constructor` | dp/core/blk_index.c:451-459 | the store before anything was put: nothing indexed, every block free |
| `BlkIo.BlockStore.GetIndexEnt` | dp/core/blk_index.c:164-188 | the first match in the bucket of the key |
| `BlkIo.BlockStore.IoRead` | dp/core/io.c:90-124 | the value the theorems call the reading of the key, or none |
| `BlkIo.BlockStore.NewIndexEnt` | dp/core/blk_index.c:268-294 | an entry with length, checksum and the version after the present one |
| `BlkIo.BlockStore.IoWrite` | dp/core/io.c:126-174 | the batch grows by one entry, nothing else changes |
| `BlkIo.BlockStore.IoWriteFlush` | dp/core/io.c:189-230 | allocation, numbering and device write are the specified flush; without a batch nothing happens |
| `BlkIo.BlockStore.UpdateIndex` | dp/core/blk_index.c:300-347 | the displaced entry leaves the chain and its blocks go to the free list in one step |
| `BlkIo.BlockStore.TakeIn` | dp/core/blk_index.c:424-429 | a wanted record displaces the older one, whose blocks are freed, and its own blocks are taken |
| `BlkIo.BlockStore.InitCb` | dp/core/blk_index.c:393-445 | a record is taken in if and only if it is good and newer, and its blocks are skipped in any case |
| `BlkIo.BlockStore.ReadBlock` | dp/core/blk_index.c:393-445 | what is at a block: nothing, or its record, good exactly as `GoodExactly` says; a damaged value is not |
| `BlkIo.BlockStore.CheckValue` | dp/core/blk_index.c:410-424 | the table-driven checksum of the stored value against the recorded one |
| `BlkIo.BlockStore.ScanBlock` | dp/core/blk_index.c:472-476 | one turn of the scan moves on and keeps what is left to be replayed |
| `BlkIo.BlockStore.IndexInit` | dp/core/blk_index.c:451-492 | the scan terminates on every sound image with conserved blocks and the index and free list the theorems speak of |
| `BlkIo.BlockStore.IoWriteCb` | dp/core/io.c:248-285 | every entry of the batch is indexed, the batch is cleared and the blocks are conserved |
| `IxevSend.HotKeeps` | libix/ixev.c:375-386 | extending the buffer at hand and the last scatter-gather entry together keeps the invariant |
| `IxevSend.ColdKeeps` | libix/ixev.c:388-408 | a new buffer with its entry and its reference keeps the invariant |
| `IxevSend.ColdLoopKeeps` | libix/ixev.c:388-408 | the loop over new buffers keeps it, whenever allocation fails or the list is full |
| `IxevSend.ColdLoopAccepts` | libix/ixev.c:388-408 | what the loop accepts is a front part of the data |
| `IxevSend.SendKeeps` | libix/ixev.c:362-416 | every copying send keeps the invariant and accepts a front part of the data |
| `IxevSend.SendZcKeeps` | libix/ixev.c:430-450 | every zero-copy send keeps the invariant |
| `IxevSend.AddSentCbKeeps` | libix/ixev.c:459-463 | registering a callback keeps the invariant |
| `IxevSend.SendvRetKeeps` | libix/ixev.c:508-539 | any return of the kernel up to what was described keeps it |
| `IxevSend.DropContent` | libix/ixev.c:508-539 | what the list describes after the shift is what the kernel did not take |
| `IxevSend.DropEnds` | libix/ixev.c:508-539 | the last entry still ends where the buffer at hand ends |
| `IxevSend.RipeExactly` | libix/ixev.c:175-199 | the callback loop fires reference i if and only if all up to it are acknowledged |
| `IxevSend.TcpSentKeeps` | libix/ixev.c:175-199 | any acknowledgement of at most what was handed over keeps the invariant |
| `IxevSend.ApplyKeeps` | libix/ixev.c:175-539 | each of the five kinds of event keeps the invariant |
| `IxevSend.StreamInOrder` | libix/ixev.c:315-539 | over every run, the bytes the kernel took followed by those still described are exactly the bytes accepted by both ways of sending, in order |
| `IxevSend.WindowKept` | libix/ixev.c:343-349 | over every run, between 0 and IXEV_SEND_WIN_SIZE bytes are unacknowledged and the list never overflows |
| `IxevSendExact.HandedExactly` | libix/ixev.c:518-539 | over any run: what is acknowledged is the sum of the acknowledgements, the kernel has the first so many of the accepted bytes as its returns add up to, the list describes the rest, and the connection is dead if and only if a sendv failed |
| `IxevSendExact.SendExactly` | libix/ixev.c:343-416 | after any run the copying send accepts exactly the least of the length of the data, 65536 less what was accepted and not acknowledged, and what the buffer at hand, the free entries and the allocations hold; nothing after a failed sendv |
| `IxevSendExact.SendAccepts` | libix/ixev.c:362-416 | it fills the buffer at hand first and takes no more new buffers and entries than the rest needs |
| `IxevSendExact.SendZcExactly` | libix/ixev.c:430-450 | after any run the zero-copy send with a free entry accepts exactly the lesser of the length of the data and 65536 less what was accepted and not acknowledged |
| `IxevSendExact.BufferAtHand` | libix/ixev.c:375-449 | which buffer is at hand after each call: the last one filled, none when no further one could be had, after a zero-copy send or when no reference waits any more |
| `IxevSendExact.CallbacksKept` | libix/ixev.c:459-463 | over any run the callbacks that have run, followed by those that wait, are exactly those registered, in that order, each for the bytes accepted before it |
| `IxevSend.BufferSafe` | libix/buf.h:48-94 | under the invariant a released buffer has all its bytes acknowledged, and one not released is still referenced |
| `IxevSend.BuffersSafe` | libix/buf.h:48-94 | over every run, a copy buffer holds its piece of the stream unchanged, is released only when all of it is acknowledged, and the one at hand ends at send_total and has not been released |
| `IxevSend.ReleasedOnce` | libix/buf.h:48-53 | no buffer is released twice, nor while its reference is still waiting |
| `IxevSend.FiresExactly` | libix/ixev.c:175-199 | an acknowledgement fires exactly the front part of the waiting callbacks that it covers |
| `IxevSend.NothingLeftWaiting` | libix/ixev.c:175-199 | when everything is acknowledged no callback and no buffer is left |
| `IxevSend.CallbackExactly` | libix/ixev.c:175-199 | over every run: an acknowledgement makes a waiting callback run if and only if it covers all that was accepted before the callback was registered and no copy buffer with bytes from before has been filled past the acknowledged position; so never early, and late only for such a buffer |
| `IxevSend.CallbackHeldBack` | libix/ixev.c:330-341 | there is a run, for any data, in which all that was sent before a callback was registered is acknowledged and the callback still waits |
| `IxevSend.IxevCtx.constructor` | libix/ixev.c:480-497 | an empty context satisfies the invariant |
| `IxevSend.IxevCtx.SendCopy` | libix/ixev.c:362-416 | ixev_send on the context, with the number of bytes accepted, which `SendExactly` gives, or the error |
| `IxevSend.IxevCtx.SendInWindow` | libix/ixev.c:362-416 | after the check for a dead connection: the bytes `SendAccepts` allows, all of the window that acknowledgements have left open, and their number, or an error for none |
| `IxevSend.IxevCtx.SendNow` | libix/ixev.c:375-408 | the hot path followed by the cold one, or the cold one alone |
| `IxevSend.IxevCtx.StoreHot` | libix/ixev.c:375-386 | as many bytes as fit go into the buffer at hand, and the last entry and the position of its reference move with it |
| `IxevSend.IxevCtx.FillNew` | libix/ixev.c:388-408 | new buffers are filled until the data, the buffers or the entries run out |
| `IxevSend.IxevCtx.AddBuffer` | libix/ixev.c:388-408 | one new buffer gets its bytes, its entry and its reference |
| `IxevSend.IxevCtx.SendDirect` | libix/ixev.c:430-450 | a zero-copy send accepts the bytes `SendZcExactly` allows, ends the buffer at hand and returns their number |
| `IxevSend.IxevCtx.HandleSendvRet` | libix/ixev.c:518-539 | the part the kernel took leaves the list, within an entry too, and the invariant is kept |
| `IxevSend.IxevCtx.DropTaken` | libix/ixev.c:518-539 | the entries left describe exactly what was not taken |
| `IxevSend.IxevCtx.ShiftSends` | libix/ixev.c:508-516 | the rest of the array moves to the front in order |
| `IxevSend.IxevCtx.AddSentCallback` | libix/ixev.c:459-463 | the reference goes to the end of the list with the present position |
| `IxevSend.IxevCtx.HandleTcpSent` | libix/ixev.c:175-199 | the callbacks that have become due run, the invariant is kept, and without a waiting reference the buffer at hand is given up |
| `IxevSend.IxevCtx.RunCallbacks` | libix/ixev.c:182-187 | exactly the references up to the first that has to wait are fired, in order |
| `Migration.RecvKeeps` | dp/core/ethfg.c:456-513 | a packet on any CPU, for any group in any state, keeps the invariant |
| `Migration.ProcessKeeps` | dp/core/ethqueue.c:91-110 | processing a packet of the receive queue keeps the invariant |
| `Migration.PassOnKeeps` | dp/core/ethfg.c:312-320 | the timeout of the previous CPU keeps the invariant; `TimerPassesOn` says what it does |
| `Migration.EarlyKeeps` | dp/core/ethfg.c:322-337 | the early end of a migration keeps the invariant, also when it comes too late |
| `Migration.FinishIsActive` | dp/core/ethfg.c:353-421 | a finish waiting on a CPU belongs to the migration both CPUs have recorded, and its bitmap is exactly the groups moving there |
| `Migration.FinishKeeps` | dp/core/ethfg.c:353-421 | the takeover by the target keeps the invariant |
| `Migration.AssignKeeps` | dp/core/ethfg.c:130-271 | starting a migration, or finding that none is needed, keeps the invariant |
| `Migration.ApplyKeeps` | dp/core/ethfg.c:130-513 | each kind of step keeps the invariant |
| `Migration.OneMigration` | dp/core/ethfg.c:213-271 | a CPU has a part in at most one migration |
| `Migration.TransitionsExact` | dp/core/ethfg.c:130-513 | in every run the groups in transition are exactly the bits of the active migrations, each of the one from its previous CPU to its target |
| `Migration.NeverStuck` | dp/core/ethfg.c:312-421 | in every run a migration under way has its timeout pending if and only if the target has not yet been told to finish it |
| `Migration.DeliveredByOwner` | dp/core/ethfg.c:353-513 | in every run each packet reaches eth_input on the CPU that owns its group at that moment |
| `Migration.DeliveredInOrder` | dp/core/ethfg.c:353-513 | in every run, within a group, packets accepted by the previous CPU come before those accepted by the target, and within a phase in the order of acceptance |
| `Migration.DeliveredOnce` | dp/core/ethfg.c:353-513 | in every run no packet is delivered twice |
| `Migration.NothingLost` | dp/core/ethfg.c:353-513 | of each group, those delivered and those waiting are together exactly those accepted |
| `Migration.AcceptedExactly` | dp/core/ethfg.c:492-513 | a packet is accepted if and only if its CPU owns the group and has room, or is the previous CPU or the target of its move; otherwise nothing changes |
| `MigrationExact.TimerPassesOn` | dp/core/ethfg.c:312-320 | when the timeout of CPU c expires in any reachable state, it is no longer pending, the target has the finish of c and no other in its run list, and nothing else in the system has changed |
| `MigrationExact.EarlyPassesOn` | dp/core/ethfg.c:322-337 | an early handler that runs leaves the run list and, if and only if the timeout is still pending, does the same |
| `MigrationExact.FinishFrees` | dp/core/ethfg.c:353-421 | the finish leaves both CPUs without a part in any migration and touches no other |
| `MigrationExact.FinishSettles` | dp/core/ethfg.c:353-421 | after the finish every group of the bitmap is owned by the target and not moving, with all its accepted packets delivered, those passed on before those held back; no other group has changed |
| `MigrationExact.MigrationEnds` | dp/core/ethfg.c:312-421 | from every reachable state each migration under way is ended by at most two steps of its own, the timeout if still pending and the finish: its groups have settled on the target with everything delivered, all else is as before, and both CPUs are free |
| `MigrationExact.EarlyEnds` | dp/core/ethfg.c:322-421 | the same by an early handler that waits on the source, and the finish |
| `MigrationExact.OnlyFinishEnds` | dp/core/ethfg.c:130-513 | no step but its finish changes the target or the groups of a migration under way |
| `MigrationExact.HurriedAlways` | dp/core/ethfg.c:470-490 | in every run, when a packet waits at the target of a migration whose timeout is pending, an early handler waits on its source, and that handler and the finish end the migration |
| `MigrationExact.AssignExactly` | dp/core/ethfg.c:130-271 | of the groups asked for, those of the calling CPU that have to go elsewhere are in transition, recorded on it with a timeout and known to the target, and the others are owned by the target; no other group changes |
| `MigrationExact.AssignKeepsPackets` | dp/core/ethfg.c:423-442 | a migration that starts keeps the packets of every group that wait, in their order |
| `MigrationExact.AssignNothing` | dp/core/ethfg.c:233-254 | no migration starts if none of the groups asked for has to move |
| `Migration.MigratePkts` | dp/core/ethfg.c:423-442 | the packets of the group leave the receive queue in order, the others stay in order |
| `Migration.Dataplane.constructor` | dp/core/ethfg.c:73-93 | the state at start satisfies the invariant: no group assigned, no migration under way |
| `Migration.Dataplane.EthRecv` | inc/ix/ethqueue.h:86-106 | a packet goes to the queue the state of its group calls for, and is counted as accepted exactly if it was queued |
| `Migration.Dataplane.EthInput` | dp/core/ethqueue.c:91-110 | the packets of a queue are delivered in its order, each with the owner its group has then |
| `Migration.Dataplane.ProcessRecvQueue` | dp/core/ethqueue.c:91-110 | the first packet of the receive queue is delivered |
| `Migration.Dataplane.AssignSingle` | dp/core/ethfg.c:130-159 | one group: taken over at once, left alone, or put in transition with its waiting packets |
| `Migration.Dataplane.AssignLoop` | dp/core/ethfg.c:233-254 | the loop over the bitmap collects exactly the groups that have to move |
| `Migration.Dataplane.AssignToCpu` | dp/core/ethfg.c:213-271 | a migration starts, with its record on both CPUs and a timeout, exactly when a group has to move |
| `Migration.Dataplane.EarlyTransition` | dp/core/ethfg.c:322-337 | the target is told to finish ahead of the timeout, unless it has been told already: the step of `EarlyPassesOn` |
| `Migration.Dataplane.TakeOver` | dp/core/ethfg.c:365-373 | the groups of the bitmap, and no others, belong to the target |
| `Migration.Dataplane.TransitionTarget` | dp/core/ethfg.c:353-421 | the groups change hands before any packet is delivered, and those passed on come before those held back |
| `Balance.SharesAddUp` | cp/ixcp.py:226-233 | the shares of the chosen CPUs, which differ by at most one, add up to all groups |
| `Balance.MovedPartition` | cp/ixcp.py:241-258 | a move keeps every group on exactly one CPU |
| `Balance.MovedSums` | cp/ixcp.py:241-258 | a move reduces what is missing by exactly its size |
| `Balance.MoveKeeps` | cp/ixcp.py:241-258 | a move of the algorithm keeps its invariant, with no group moved twice |
| `Balance.SurplusSomewhere` | cp/ixcp.py:241-258 | while a CPU is short, another one has a surplus, so the inner loop cannot run dry |
| `Balance.AllSatisfied` | cp/ixcp.py:241-258 | when no CPU is short, each has exactly its share, since the shares add up |
| `Balance.DeficitDrop` | cp/ixcp.py:241-258 | no move of any kind can make up for more than its size |
| `Balance.LeastMoves` | cp/ixcp.py:223-261 | any sequence of moves that ends balanced moves at least as many groups as were missing |
| `Balance.Finished` | cp/ixcp.py:223-261 | when the chosen CPUs are fed, every CPU has exactly its share and the others none |
| `Balance.ControlPlane.TakeFrom` | cp/ixcp.py:244-258 | one source gives what it can spare, never more than is needed |
| `Balance.ControlPlane.FillTarget` | cp/ixcp.py:241-259 | one target is fed without starving any fed before |
| `Balance.ControlPlane.FillAll` | cp/ixcp.py:237-261 | every chosen CPU ends up with at least its share |
| `Balance.ControlPlane.SetCpus` | cp/ixcp.py:223-261 | from any partition of all groups: each chosen CPU ends with exactly its share and the others with none, the partition is kept, no group moves twice, and the number of groups moved is the least possible |

## Left out

- TimerWheels.TimerWheel.TimerAdd: requires the rounded delay from the cached clock to stay below 2^28 us; what happens when the code then writes outside the wheel array (`AcceptedOutside`) is not modelled.
- Timers added by a handler into the bucket that is being run, deletion of timers, timer_deadline, and the collection and re-injection of timers during a migration.
- TimerOrder.LastAddedFirst: is about a run of one bucket without a cascade; `ReinsertOrder` is about cascades.
- TcpReceive.WindowNeverOverrun: is about peers that stay within the announced edge; `WindowExactly` is about all of them.
- TcpReceive.ReceiveKnown: is about arrivals kept whole; `EnqueueExactly` says which those are, and `ReceiveKnownExactly` is about all of them.
- TcpReceiveExact.AnnouncedExactly: leaves out runs in which an arrival is queued past the window; `OverrunExactly` says which those are.
- SYN segments with data, data written before the connection is established, resets, time-wait and keep-alive; TCP timestamps and options; the limits on out-of-order bytes, which are off. Of the handshake only the counters are modelled.
- Computation of round-trip times and of the congestion window, which is a parameter of every step that reads it; the rule for accepting a window update (snd_wl1, snd_wl2) is the parameter `update`.
- TcpSend.SendInvariant: while a segment waits to be sent again, the writes, closings and timeouts that `WriteAfterRexmitExactly`, `CloseAfterRexmitExactly` and `TimeoutAfterRexmitExactly` show to break the order are left out of the runs, and so is a second fast retransmission, which the flag TF_INFR allows only after an acknowledgement of part of that segment. `TcpSendRuns.AccountsAlways` is about all runs.
- Widths of 16 bits in tcp_write (its length, space and queue length), which the invariant keeps from being exceeded.
- Migration: steps are atomic, although the queues are filled without locks; one receive queue a CPU; the polling in the early handler is a number of receptions before it. Groups of outbound connections, the flow director, timers and metrics are not modelled.
- Migration.EarlyKeeps: an early end requested for one migration may run during a later one of the same CPU and end it sooner, as in the code.
- Balance.ControlPlane.SetCpus: requires distinct CPUs; which groups of a surplus move is left open, because the order of the lists says nothing.
- Waking up CPUs, energy and performance policies and everything else of the control program.
- BlkIo.BlockStore.IoRead: requires at most four blocks, which the code asserts.
- BlkIo.BlockStore.ReadBlock: computes the checksum before the versions are compared, not after; the outcome is the same.
- BlkIo.BlockStore.IoWriteFlush: a batch that finds no free extent, or whose image exceeds its blocks, is excluded; the code asserts the second and does not check the first.
- KvStore.Conservation: puts between a flush and its completion are excluded, because the batch buffer is shared; a displaced entry needs a free extent above it.
- KvStore.PutGet: one-write batches whose value fills its blocks, under keys that begin no other key of their bucket; `PutGetAny` is about keys that do, the lemmas on placement and filling say why the rest.
- KvStore.PutFindExactly: is about buckets whose keys are distinct; `BlkIndex.DistinctKeptExactly` says when an update keeps them so.
- KvRuns.IndexRefines: is about keys none of which begins another of its bucket, and says what the index has; what a batch of more than one write leaves on the device is said by `BatchReads`.
- Keys of 108 bytes, which leave no room for a terminator; delete_key; the limits on the size of a batch; the arithmetic of the hash.
- Recovery.RecoversSpace: requires good records to name their own block and all records to end on the device, which `Restart.RestartRebuilds` proves of the devices the store writes.
- Recovery.RecoversBest: requires keys none of which begins another of its bucket, as `LookupExactly` explains.
- Corruption.DamageSkipped: is about images as in `RecoversBest`, and about damage to values; damage to the metadata of a record is not covered by any checksum.
- Restart.CrashLosesNothing: is about one-write batches whose value fills its blocks and is not empty, and keys none of which begins another of its bucket; the lemmas on placement, filling, lookup and empty values say why.
- Restart.RecoversExactly: beyond its bounds there are workloads that lose something, not all do.
- A crash between the device write and the completion of a put.
- The delay and the completion timer of the block device, which become a separate completion step.
- Receiving, closing and the event masks of the event library; the retry of pending data after an acknowledgement, which only repeats a request to the kernel.
- InetChecksum.Chksum2: up to 128 KiB, beyond which the 32-bit accumulator of algorithm 2 can overflow.
- Network drivers, system calls and their batching, page tables, ARP, IP, ICMP, UDP, memory pools and the applications.
