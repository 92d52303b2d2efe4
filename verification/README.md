# Verification of the NPR-70 modem firmware

A Dafny model of the NPR-70 radio link with proofs about it. The modem carries IPv4 packets
over a shared radio channel: packets are cut into segments, protected by an error-correcting
code, queued for the transmit interrupt, sent in time slots handed out by a master, received
into a byte ring, repaired and put together again. Around that stand the master's address
table, the signalling frames, the flash log of configurations, the JSON configuration file and
the SNMP agent.

`dafny verify dfyconfig.toml` checks everything. One module is one file:

| module | part of the firmware |
|---|---|
| Bytes | bytes, exclusive-or sums, windows of rings, the parity bit |
| Fec | the error-correcting code: three data blocks and a parity block, each with a check byte |
| TxQueue, QueueRuns | the rings of 128-byte blocks between the main loop and the transmit interrupt, the spill from external memory, and all their interleavings |
| Reassembly | putting segments together under loss |
| Link, Transmitter | segmentation, message headers, frames, and delivery from end to end |
| RxFifo, Receiver | the receive ring filled by the interrupt, and its emptying by the main loop |
| TdmaByte, Uplink, Tdma, Schedule, AllocFrame, Bursts | the byte in front of every frame, the master's picture of its clients, slot sharing, burst timings, the allocation frame and what clients make of it, and when a client sends |
| AddressTable | the address range allocator and the table of clients |
| Signaling, SignalFrames | the entries of signalling frames, their packing and the walk over them |
| FlashLog | the rotating log of configurations in flash |
| Numerals, JsonConf, Settings | the JSON configuration: numbers as text, the search for a key, save and read |
| Snmp | the SNMP agent's single-pass response builder |

Code that changes state in place is modelled by methods and classes over arrays and fields; each
is proved to compute a function of the old state, and the theorems are about that function.
Interrupts are modelled by a method that may run between any two steps of the main loop
(`TxQueue.BlockRing.Interrupt`) and by a transition system whose runs interleave the steps freely
(`QueueRuns`). The radio channel, clocks, random numbers and the answers of the chips are
parameters.

Places where the code does less than one would expect are stated as they are:

- A flush of a transmit queue is three stores with the interrupt in between (source/L1L2_radio.cpp:730-737).
  `QueueRuns.RunKeepsInv` shows that a run keeps the queue in order if and only if no read falls between
  the second and the third, `QueueRuns.FlushExactly` when one can, and `QueueRuns.FlushRepeats` and
  `QueueRuns.FlushTears` give runs in which a frame is sent twice and a frame is read from its middle.
- A packet that loses a segment in front of its last one can be delivered truncated
  (source/L1L2_radio.cpp:210-219). `Reassembly.NeverMixed` says what is delivered,
  `Reassembly.WholeIffFullyReceived` when a packet is delivered whole, and
  `Reassembly.TruncatedExactly` when it is delivered truncated. `Reassembly.FirstSegmentLost` and
  `Reassembly.TruncatedDelivery` lose the first of two segments and the second of four.
- The reassembly buffers hold six full segments, and the receiver accepts segment numbers up to seven.
  `Link.RunFits` shows that over any run of records no buffer is exceeded if and only if no record
  overfills its row, a test on the record and the row before it; `Link.RunBounded` that numbers up to
  five never do, and `Link.SevenRecordsOverflow` gives seven records that do.
- The receive ring is written without a look at the read pointer (source/SI4463.cpp:642-661). The
  unread records survive if and only if the reader is at most a ring behind
  (`RxFifo.Fifo.StartPacket`), and `RxFifo.OverrunReplacesOldest` says what is lost beyond.
- The discovery station sends without a timing advance. `Schedule.DiscoveryFitsFrame` says up to which
  round trip its burst still ends inside the frame, and `Schedule.DiscoveryOverrunsFrame` gives one
  that ends behind it.
- A reconnection with an unchanged size reactivates its old range without looking whether it is
  still free (source/signaling.cpp:203-209). `AddressTable.ConnectKeepsApart` gives the exact
  condition, `AddressTable.MixedSizesOverlap` a run that fails, and `AddressTable.WholeRun` shows
  that with one common size it never does.
- Damage inside a block that leaves the block's exclusive-or unchanged goes unnoticed;
  `Fec.DecodeDamaged` says exactly when the message survives, and `Fec.SilentDamage` gives a message
  that does not.
- A client that misses a start of frame counts frames on every poll of a 2 ms window instead of
  once (source/TDMA.cpp:198-201), so that a slow client can send in another client's frame.
  `Bursts.TimeoutOnSchedule` gives the exact condition and `Bursts.TimeoutCollides` a collision.
- The SNMP agent leaves the list header out of the PDU's length and counts the PDU's own header
  instead, and likewise one level up (source/SNMP.cpp:502, 518-520, 618-627).
  `Snmp.WellFormedExactly` says exactly when the response is well formed, and `Snmp.LongListMalformed`
  gives an accepted request whose response is not.
- The file ends a text at its first double quote: `Settings.QuotedValue` shows that a printed text is
  found again if and only if it has none.
- A value without quotes ends at the first comma only if a carriage return follows somewhere, as in the
  files the modem writes (pi-pico/jsonconf.cpp:129-134). `JsonConf.BareAnswer` says where it ends, and
  `JsonConf.CommaTaken` reads a line that ends in a line feed alone.
- A flag with another value than 0 and 1, such as the two-valued `master_fdd`
  (pi-pico/jsonconf.cpp:63), comes back as 1: `Settings.FlagRoundTrip`.

## Model

| member | source | states |
|---|---|---|
| Fec.DecodeEncode | source/L1L2_radio.cpp:258-386 | decoding an undamaged encoding gives the message and counts no error |
| Fec.CodeWords | source/L1L2_radio.cpp:258-300 | the code words are the message in three blocks and their exclusive-or as a fourth, each block followed by one byte |
| Fec.EncodeOnAir | source/L1L2_radio.cpp:258-300 | the message 1, 2, 4 is sent as 1, 1, 2, 2, 4, 4, 7, 7 |
| Fec.DecodeDamaged | source/L1L2_radio.cpp:302-386 | with arbitrary damage inside one block the message comes back if and only if the damage changed the block's exclusive-or, spared its data bytes, or hit the parity block |
| Fec.SilentDamage | source/L1L2_radio.cpp:302-386 | two equal changes in one block, of a data byte and its check byte, go unnoticed and change the message |
| Fec.RepairableDecodes | source/L1L2_radio.cpp:302-386 | an encoding that is undamaged, or damaged inside one block in a way that the block notices, decodes to the message |
| Fec.SingleByteRepaired | source/L1L2_radio.cpp:302-386 | any change of one byte anywhere in the encoding is repaired and counted as one error |
| Fec.TwoFailuresLoseTheFrame | source/L1L2_radio.cpp:328-341 | two failing blocks yield no data |
| Fec.FecEncode2 | source/L1L2_radio.cpp:258-300 | the encoder writes exactly the four sealed blocks of the padded payload, of the announced length, and nothing else |
| Fec.FecDecode | source/L1L2_radio.cpp:302-386 | at any position of the ring the decoder yields the decoding of the window it reads, its error count, and a read pointer advanced by the input size |
| Fec.DecodeWindow | source/L1L2_radio.cpp:314-343 | the decoding of a ring window is given by the four block check sums and the blocks read off the ring |
| TxQueue.BlockRing.Flush | source/L1L2_radio.cpp:730-737 | with the interrupt between the three stores, the flush leaves a valid empty queue if and only if nothing was read between the last two, which cannot happen when nothing was published since the flush before |
| TxQueue.BlockRing.Publish | source/L1L2_radio.cpp:484-504 | moving last_ready makes the blocks written so far one more pending frame |
| TxQueue.BlockRing.FirstFrame | source/L1L2_radio.cpp:556-588 | between read pointer and last_ready the ring holds whole frames, and the cells at the read pointer are the oldest one |
| TxQueue.BlockRing.Take | source/L1L2_radio.cpp:563-588 | a read yields exactly the oldest pending frame and the size its length byte announces |
| TxQueue.BlockRing.Purge | source/SI4463.cpp:930-964 | the purge drops the frames in front of the first one whose age, by the plain difference of the two time bytes, is at most the timeout, and no others |
| TxQueue.BlockRing.DecideTx | source/SI4463.cpp:969-1066 | the choice, the frame counter and the queue after one decision, the end of the frame being compared with the end of the burst by signed 32-bit difference |
| TxQueue.BurstLaw | source/SI4463.cpp:930-1066 | over any run of decisions the master opens every burst with its allocation frame and sends no other one, a connected client opens it with a null frame exactly when it has nothing else, every other frame is the oldest one that is not too old and ends in time, and a burst ends exactly when there is none |
| TxQueue.BlockRing.Interrupt | source/SI4463.cpp:930-1066 | any number of reads and purges keeps the ring valid and the order of all frames ever written |
| TxQueue.InternWrite | source/L1L2_radio.cpp:484-504 | with interrupts between any two copies, a write appends exactly one whole frame |
| TxQueue.ExtWrite | source/L1L2_radio.cpp:520-554 | a write to the external ring appends one frame whose first bytes are the data |
| TxQueue.MoveFrame | source/L1L2_radio.cpp:670-706 | one spill step takes the oldest external frame and appends it unchanged to the internal ring if and only if it is younger than the timeout |
| TxQueue.PeriodicCall | source/L1L2_radio.cpp:658-709 | the spill ends when the external ring is empty or the internal one holds ten blocks, removes a prefix of whole frames from the external ring, appends in order exactly those younger than the timeout, none of which the next purge would drop, and never lifts the internal filling above 12 |
| QueueRuns.StepKeeps | source/L1L2_radio.cpp:484-737 | every single step of writer, interrupt, purge and flush keeps the queue invariant, except a read between the last two stores of a flush, which never does |
| QueueRuns.Limits | source/L1L2_radio.cpp:602-643 | the fillings up to which a packet or a signalling frame is begun are 110 and 120 for the internal ring, 950 and 1000 for the external one |
| QueueRuns.RunKeepsInv | source/L1L2_radio.cpp:484-737 | for both rings, the invariant holds in all states of a run up to a given one if and only if no read fell between the last two stores of a flush before it |
| QueueRuns.ReadsOldest | source/L1L2_radio.cpp:556-588 | in every such state, also inside a flush before its second store, the cells at the read pointer are the oldest unread frame, complete |
| QueueRuns.QueueSafe | source/L1L2_radio.cpp:484-737 | under any interleaving without such a read WR-RD never exceeds the ring, no copy hits an unread block, and each read yields the oldest published frame not yet read |
| QueueRuns.FlushExactly | source/L1L2_radio.cpp:730-737 | a flush with any number of reads inside leaves the queue in order if and only if none came between its last two stores; one can come there if and only if anything was published since the flush before, and then the read pointer stays ahead |
| QueueRuns.FlushRepeats | source/L1L2_radio.cpp:730-737 | a run from the start in which a frame already read is taken a second time during a flush |
| QueueRuns.FlushTears | source/L1L2_radio.cpp:730-737 | its continuation, in which the next frame is read from its second block on |
| QueueRuns.QueueBoundTight | source/L1L2_radio.cpp:423-468 | a run reaches a filling of exactly 128 blocks |
| Reassembly.AssemblyInvariant | source/L1L2_radio.cpp:195-227 | for any in-order subsequence of a sender's segments, what the buffer holds is a run of consecutive segments of the current packet |
| Reassembly.NeverMixed | source/L1L2_radio.cpp:195-227 | whatever is delivered is an unbroken run of segments of one packet that ends with its last one |
| Reassembly.WholeIffFullyReceived | source/L1L2_radio.cpp:195-227 | a packet is delivered whole at its last segment if and only if every one of its segments arrived before, in whatever place of the stream |
| Reassembly.ArrivedIsUnbroken | source/L1L2_radio.cpp:195-227 | in an ordered stream segments that have all arrived came one right after the other |
| Reassembly.DeliversExactly | source/L1L2_radio.cpp:195-227 | a segment makes the receiver deliver something if and only if it is the last of its packet and is the only one or follows the number received before it, the last first segment being of the same packet |
| Reassembly.TruncatedExactly | source/L1L2_radio.cpp:195-227 | what is delivered is a truncated packet if and only if that holds and one of its segments has not arrived |
| Reassembly.FirstSegmentLost | source/L1L2_radio.cpp:210-219 | a receiver just started that misses the first of two segments delivers the second alone |
| Reassembly.AbsorbFits | source/L1L2_radio.cpp:195-227 | whatever is received, a row that fits its 1600 bytes still does after a segment unless and only unless the segment is numbered six or seven, follows the last one of the same packet, and brings more bytes than there is room for |
| Reassembly.TruncatedDelivery | source/L1L2_radio.cpp:210-219 | losing the second of four segments delivers the fourth alone |
| Link.CutShape | source/L1L2_radio.cpp:414-461 | a packet is cut into segments of 252 bytes, a last one of at least 63, numbered in order, the last one flagged |
| Link.CutJoins | source/L1L2_radio.cpp:414-461 | the segments together are the packet, padded at the end only |
| Link.HeaderRoundTrip | source/L1L2_radio.cpp:450-454 | address, protocol, packet number, last flag and segment number come back from the message header as they were put in, and the payload in front of at most two padding bytes |
| Link.HeaderOnAir | source/L1L2_radio.cpp:450-454 | two message headers byte by byte, with the parity bit of the address |
| Link.WireOnAir | source/L1L2_radio.cpp:440-457 | a frame is the coarse time, the length byte, the TDMA byte and the code words; 63 bytes of payload make 92 code words and the length byte 3 |
| Link.ReceivedDecodes | source/L1L2_radio.cpp:112-136 | a record that is a queued frame, compared with the code words lying in the queue and repairably damaged in at most one block, decodes to the message that was queued |
| Link.ProcessSegment | source/L1L2_radio.cpp:141-227 | such a record makes the sender's row of the reassembly table absorb exactly that segment and touches no other row |
| Link.ClientFilter | source/L1L2_radio.cpp:141-227 | a client absorbs exactly the IPv4 segments that carry the master's direction bit and its own number or the broadcast number, into its one row; every other record changes nothing and hands nothing over |
| Link.MasterFilter | source/L1L2_radio.cpp:141-227 | the master absorbs exactly those with the uplink bit from connected clients, each into the row of its number; every other record changes nothing and hands nothing over |
| Link.ForeignLeavesRow | source/L1L2_radio.cpp:141-227 | a record that does not pass the filter as IPv4 for a row leaves that row alone, whatever it holds |
| Link.LostFrameIgnored | source/L1L2_radio.cpp:141-227 | a record in which two blocks fail leaves all rows alone and delivers nothing |
| Link.EndToEnd | source/L1L2_radio.cpp:396-469 | an accepted packet below 1510 bytes whose queued frames are received in order by the station they are meant for, each repairably damaged in at most one block and with arbitrary records of other stations and kinds in between, is handed to IP exactly once, at its last frame, with the original bytes first and at most 64 bytes behind its length or behind 63, whichever is larger |
| Link.ProcessFits | source/L1L2_radio.cpp:141-227 | a record keeps all rows within 1600 bytes if and only if its segment does not overfill its row |
| Link.RunFits | source/L1L2_radio.cpp:141-227 | over any run of records, whoever sends them and whatever is lost, all rows fit their 1600 bytes in every state if and only if no record overfilled its row |
| Link.SevenRecordsOverflow | source/L1L2_radio.cpp:141-227 | seven records that the receiver accepts, with the full segments 0 to 6 of one packet, drive their row to 1778 bytes, whatever it held |
| Link.RunBounded | source/L1L2_radio.cpp:141-227 | over any run of records with segment numbers up to five, whoever sends them and whatever is lost, all buffers fit their 1600 bytes in every state |
| Link.SentIsShort | source/L1L2_radio.cpp:396-469 | every received record of an accepted packet is such a record |
| Transmitter.Sender.QueueMessage | source/L1L2_radio.cpp:440-457 | a message is encoded, framed with time, length and TDMA byte, and appended to the queue |
| Transmitter.Sender.PushSegment | source/L1L2_radio.cpp:427-461 | one turn of the loop queues one message with the right header |
| Transmitter.Sender.PushAll | source/L1L2_radio.cpp:423-462 | the loop queues exactly the segments of the packet in order, and the threshold leaves room for all of them |
| Transmitter.Sender.SegmentAndPush | source/L1L2_radio.cpp:396-469 | a packet is accepted exactly below 1510 bytes on a queue that is not full; then its segments are appended and the packet number advances, otherwise nothing changes |
| Transmitter.AcceptedIsDelivered | source/L1L2_radio.cpp:396-469 | the frames that segment_and_push has added to the queue, received in order with at most one damaged block each and any other records in between, come out of the receiver exactly once as the packet |
| Transmitter.RunIsDelivered | source/L1L2_radio.cpp:396-588 | the same for the frames as the transmit interrupt found them in the ring, in any run of copies, publications, reads and purges that tears no flush |
| RxFifo.WriteModularWindow | source/SI4463.cpp:642-661 | a byte-by-byte write modulo the ring extends the window of unread bytes and leaves the rest of it alone |
| RxFifo.OverrunReplacesOldest | source/SI4463.cpp:642-661 | a write that passes the reader by a whole ring leaves the newest bytes where the oldest unread ones were |
| RxFifo.Fifo.Transfer | source/SI4463.cpp:642-661 | the two-step wrapped copy is the modular byte-by-byte write |
| RxFifo.Fifo.StartPacket | source/SI4463.cpp:752-790 | the start of a packet writes its header and first chunk behind the write pointer; the ring keeps its unread records if and only if the reader is at most 8192 bytes behind, and then a packet that is complete at once becomes a record |
| RxFifo.Fifo.ContinuePacket | source/SI4463.cpp:791-816 | a further chunk is written behind the write pointer, on the same condition without loss, and the last one completes the record |
| RxFifo.Fifo.Rewind | source/SI4463.cpp:866-894 | an abandoned packet leaves no trace: the unread bytes are the complete records again |
| RxFifo.Fifo.FirstRecord | source/L1L2_radio.cpp:101-136 | the bytes at the read pointer are the oldest complete record |
| RxFifo.Fifo.Consume | source/L1L2_radio.cpp:101-136 | the reader passes exactly one record |
| RxFifo.Fifo.Interrupt | source/SI4463.cpp:642-918 | any number of receive interrupts and switches to transmission, while the reader keeps up, leave the unread bytes of the ring where they are and append records |
| Receiver.Radio.ReadRecord | source/L1L2_radio.cpp:101-136 | with receive interrupts in between, the reader takes the header fields and the decoded message of the oldest record, and its new position is behind that record whatever its length byte says |
| Receiver.Radio.AddSegment | source/L1L2_radio.cpp:195-227 | the buffers, sizes and counters change as the reassembly step of that one client, a last segment hands its row over, and the copy stays inside the buffer for every segment that does not overfill it |
| Receiver.Radio.Dispatch | source/L1L2_radio.cpp:141-227 | the client filter and the IPv4 branch have the effect of the receiver's record step |
| Receiver.Radio.Dequeue | source/L1L2_radio.cpp:67-250 | with receive interrupts in between, one call consumes one record if there is one, with exactly the effect of the receiver's record step, keeps the bound on all rows, and loses none of the records that arrive meanwhile |
| Uplink.SilentClientSlows | source/TDMA.cpp:227-250 | a connected client that falls silent keeps its fast slots for exactly as many allocations as its usage counter says, and on to the next frame number divisible by four |
| Uplink.FastWindow | source/TDMA.cpp:157-172 | after announcing more than one waiting frame a client is fast for at least 31 allocations and slow after 35 |
| Uplink.DeclaredNeed | source/TDMA.cpp:157-172 | a declared need counts in full for the next allocation, and only one of more than one frame makes a client fast |
| Uplink.NeedFades | source/TDMA.cpp:245-250 | a declared need is believed once and then forgotten one by one, whatever else happens |
| Uplink.NewcomerFast | source/TDMA.cpp:406-418 | in every fourth frame a client that is not connected is reset to no need and fast; one that connects then and stays silent is fast for exactly 31 allocations |
| Uplink.UnconnectedStays | source/TDMA.cpp:227-250 | in the other frames it stays as it was |
| Tdma.Master.ByteRxInterp | source/TDMA.cpp:145-172 | a frame heard with good parity updates exactly its client's need and usage, and with the synchro mark also the time it was received |
| Tdma.Master.BeginAllocation | source/TDMA.cpp:227-250 | the three loops before the sharing do one ageing step to every client |
| Tdma.Master.AllocationSlow | source/TDMA.cpp:406-418 | idle clients lose the fast state, unknown ones are reset, others keep everything |
| Tdma.Master.FirstPass | source/TDMA.cpp:269-292 | the needs round robin ends, hands out at most 15 slots, serves all sharers evenly round by round and the first ones first, gives the master two turns a round when several clients share and one otherwise, and leaves a need unmet only when the slots are used up |
| Tdma.Master.SecondPass | source/TDMA.cpp:293-303 | the surplus round robin ends with exactly 15 slots in use, takes nothing away, and gives every client as many slots as the master or one less, the first ones not less than the others |
| Tdma.Master.AllocateSlots | source/TDMA.cpp:251-303 | master and fast clients hold exactly 15 slots and at least one each; no surplus is handed out while a need is unmet, and then it goes round evenly; a client left short holds at most one slot less than any other and no less than those behind it; a master left short holds twice as much as any client, less one, when several share and no less than the client when one does, and never more than twice plus one, or one more |
| Schedule.BuildTimings | source/TDMA.cpp:304-344 | the offsets written are the schedule's, and clients without a slot keep their old one |
| Schedule.AdvanceSteps | source/TDMA.cpp:304-344 | the advance is the whole units of 10 microseconds in the round trip, and nothing outside -200 to 2000 microseconds |
| Schedule.TurnsOnAir | source/TDMA.cpp:174-188 | a fast client is on the air in every frame, a slow one in exactly one of any four, an unconnected one in none |
| Schedule.WindowsOrdered | source/TDMA.cpp:304-344 | any two clients on the air in one frame have slots one behind the other |
| Schedule.UplinkWindowsDisjoint | source/TDMA.cpp:304-344 | whatever the timing advances, windows arriving at the master never overlap and keep a gap of at least the slot margin minus 28.8 microseconds |
| Schedule.WindowsFitFrame | source/TDMA.cpp:304-344 | for every client mix, every client's burst has reached the master within the frame and its offset fits 16 bits |
| Schedule.DiscoveryFitsFrame | source/TDMA.cpp:330-344 | the discovery burst, late by its whole round trip, reaches the master within the frame if and only if the round trip is at most a slack fixed by the parameter set; its offset always fits 16 bits |
| Schedule.DiscoveryOverrunsFrame | source/TDMA.cpp:330-344 | at modulation 24 a round trip of 1999.9 microseconds, which the timing advance of a client still covers, ends behind the frame for every share |
| Schedule.DiscoveryAfterClients | source/TDMA.cpp:330-344 | however late it is, it arrives behind every client on the air in a discovery frame, with a gap of at least the slot margin minus 18.9 microseconds |
| Schedule.StartsAfterMaster | source/TDMA.cpp:304-344 | even with maximal advance a client starts later than the turn-round margin after the master's burst |
| AllocFrame.BuildAllocFrame | source/TDMA.cpp:346-404 | the frame built in the buffer lists the connected clients and the discovery slot, ends with its mark and is 66 bytes long |
| AllocFrame.FastEntryOnAir | source/TDMA.cpp:346-404 | a fast client's five bytes: number, offset with the low byte first, slots, zero |
| AllocFrame.SlowEntryOnAir | source/TDMA.cpp:346-404 | a slow client's five bytes: number, offset, one slot, and 0x20 with the low two bits of its number |
| AllocFrame.EmptyFrameOnAir | source/TDMA.cpp:346-404 | without clients the frame is its two header bytes, the discovery entry and the end mark |
| AllocFrame.AllocExploitation | source/TDMA.cpp:443-476 | the client's loop is the walk over the entries |
| AllocFrame.WalkFinds | source/TDMA.cpp:443-476 | on a frame with distinct numbers the walk takes the client's own entry and nothing else |
| AllocFrame.ClientLearnsPlan | source/TDMA.cpp:346-404 | from the decoded frame each connected client computes exactly the offset, burst length, number and mask planned for it |
| AllocFrame.DiscoveryLearnsPlan | source/TDMA.cpp:380-400 | a station without a number learns the discovery slot |
| AllocFrame.UnlistedKeeps | source/TDMA.cpp:443-476 | a client that is not listed keeps what it had |
| AllocFrame.SelectionMatchesSchedule | source/TDMA.cpp:174-188 | with what it learnt a client is selected in exactly the frames the schedule has it on the air |
| AllocFrame.MultiFrameExclusion | source/TDMA.cpp:174-188 | no two slow clients of one slow slot, nor a slow client and the discovery station, are selected for the same frame |
| AllocFrame.ClientsTakeTurns | source/TDMA.cpp:304-476 | clients that work from the allocation frame they received, each copy with its own repairable damage, and find themselves selected for the same frame reach the master one after the other |
| AllocFrame.ClientsFitFrame | source/TDMA.cpp:304-476 | such a client's burst reaches the master within the frame |
| AllocFrame.MasterAllocation | source/TDMA.cpp:225-405 | one allocation of the master ages the clients, shares the slots by all the laws above, and encodes a frame that announces exactly the plan from which ClientsTakeTurns and ClientsFitFrame start |
| TdmaByte.ByteRoundTrip | source/TDMA.cpp:67-92 | direction, start mark and five-bit value come back from the TDMA byte, which passes the parity check |
| TdmaByte.BytesOnAir | source/TDMA.cpp:67-92 | four TDMA bytes with direction 0x40, start mark 0x20 and the parity bit |
| Bursts.AtMostTwoBursts | source/TDMA.cpp:174-209 | over any run of received frames, polls, bursts and allocations a client prepares no burst before its first allocation and at most two since the last one |
| Bursts.HeardBurstOnSchedule | source/TDMA.cpp:174-188 | a start of frame makes a client prepare a burst if and only if the schedule has it on the air in that frame, timed at the planned offset behind the top |
| Bursts.MissedStartBridged | source/TDMA.cpp:174-209 | between 8 and 10 ms after a start that was not heard, a poll does exactly what hearing it one frame after the last one would have done, burst time included, and at any other time nothing |
| Bursts.OtherBytes | source/TDMA.cpp:145-190 | a byte with wrong parity changes nothing, one that is no start of frame of the master brings the frame number only, and a burst sent frees the client for the next one |
| Bursts.SlowPolls | source/TDMA.cpp:193-209 | a slow client that hears no start of frame sends at once when polled as often as its own frame is away |
| Bursts.TimeoutOnSchedule | source/TDMA.cpp:193-209 | a missed start of frame keeps a slow client on schedule if and only if its own frame comes next or the polls end before they reach it; a fast client always stays on schedule |
| Bursts.TimeoutCollides | source/TDMA.cpp:193-209 | two polls make two slow clients of one slow slot send in the same frame |
| Bursts.Client.ByteRxInterp | source/TDMA.cpp:145-190 | a received byte changes the client's state, times included, as the transition system says |
| Bursts.Client.SlaveTimeout | source/TDMA.cpp:193-209 | a poll changes the client's state as the transition system says |
| AddressTable.SearchOptimal | source/signaling.cpp:143-178 | the range search yields the lowest free interval of the requested size, and the failure value if and only if there is none |
| AddressTable.ConnectKeepsApart | source/signaling.cpp:180-261 | a connection keeps active ranges disjoint and inside the pool if and only if it is not a reactivation of a range that has been given away |
| AddressTable.MixedSizesOverlap | source/signaling.cpp:203-209 | three clients with sizes 1, 1 and 2 end with overlapping ranges |
| AddressTable.RunKeepsApart | source/signaling.cpp:180-261 | over any run without such reactivations active ranges stay disjoint and inside the pool |
| AddressTable.ConnectKeepsCallsigns | source/signaling.cpp:180-261 | a connection of any size keeps callsigns unique among all entries ever granted |
| AddressTable.RunKeepsCallsigns | source/signaling.cpp:180-261 | over any run, of whatever sizes and even when ranges come to overlap, no callsign is listed twice |
| AddressTable.AnswerIsKept | source/signaling.cpp:180-261 | a client is acknowledged if and only if it is listed as connected with the size asked for afterwards, and then under the number of its entry, dated now; a refused one is not connected, and nobody else's entry changes |
| AddressTable.RangeGranted | source/signaling.cpp:180-261 | an acknowledged client keeps its range when it is known with that size, and gets the lowest range free without its own otherwise |
| AddressTable.RefusedExactly | source/signaling.cpp:180-261 | reason 3 is given if and only if the callsign is unknown and all seven entries are connected, reason 2 if and only if there is an entry but no free range of that size, the client's own not counted, and no other reason ever |
| AddressTable.LeavesExactly | source/signaling.cpp:381-391 | a disconnection ends the connection of that callsign and changes nothing else |
| AddressTable.ExpiresExactly | source/signaling.cpp:571-580 | the timeout drops a connected client if and only if it was last heard of longer ago than the limit, by 32-bit difference; one heard of now stays |
| AddressTable.StaysConnected | source/signaling.cpp:180-580 | over any run, until its own next request or its own timeout, a connected client keeps its number, range and date |
| AddressTable.SearchMatchesEntry | source/signaling.cpp:143-261 | with one common size the lowest free range and the first inactive entry belong together |
| AddressTable.ConnectUniform | source/signaling.cpp:180-261 | with one common size an answered client gets the block of its entry and keeps it on every reconnection |
| AddressTable.RunUniform | source/signaling.cpp:180-261 | over any run with one size every used entry i keeps its block [start + i r, start + (i + 1) r) inside the pool |
| AddressTable.LookupUniform | source/Eth_IPv4.cpp:288-300 | the address lookup finds client i exactly for the addresses of its block |
| AddressTable.LooksUpLast | source/Eth_IPv4.cpp:288-300 | for any sizes, an address belongs to the last entry whose range holds it, connected or not, and to 250 if none does |
| AddressTable.WholeRun | source/signaling.cpp:143-261 | over any run of connects, timeouts, disconnects and reconnects with one size, ranges are disjoint and inside the pool, callsigns unique, and the lookup yields exactly the client an address was granted to |
| AddressTable.AddressManager.LookforIpRange | source/signaling.cpp:143-178 | the nested loops compute the range search |
| AddressTable.AddressManager.LookforCallsign | source/signaling.cpp:190-195 | the last entry with the callsign is found |
| AddressTable.AddressManager.ConnectReqProcess | source/signaling.cpp:180-261 | table and answer are those of the connection step |
| AddressTable.AddressManager.DisconnectReqProcess | source/signaling.cpp:381-391 | the table is that of the disconnection step |
| AddressTable.AddressManager.ExpireSilent | source/signaling.cpp:571-580 | entries silent for too long become inactive and nothing else changes |
| AddressTable.AddressManager.LookforClientId | source/Eth_IPv4.cpp:288-300 | the loop yields the last entry whose range holds the address, whatever its status |
| Bytes.BigEndianRoundTrip | source/Eth_IPv4.cpp:28-39 | addresses and their four bytes convert into each other, both ways |
| Bytes.AddressOnAir | source/Eth_IPv4.cpp:28-39 | 192.168.0.1 is sent in this order |
| Signaling.CallsignRoundTrip | source/signaling.cpp:36-112 | a callsign of up to fifteen characters copied over stale bytes is read back, with the forced zero at the end and without it |
| Signaling.AckLayout | source/signaling.cpp:264-279 | an acknowledgement has type 6, length 59 and its ten fields at the offsets of the builder |
| Signaling.RefusalLayout | source/signaling.cpp:280-291 | a refusal has type 7, length 33, and its reason at byte 18 |
| Signaling.RequestLayout | source/signaling.cpp:369-379 | a request has type 5 and length 21 |
| Signaling.DisconnectLayout | source/signaling.cpp:402-422 | a disconnection has type 0x0B, its acknowledgement 0x0C, both length 17 |
| Signaling.WhoisLayout | source/signaling.cpp:435-452 | a who-is entry has type 1 and length 30, error rate and timing advance with the low byte first |
| Signaling.EntryRoundTrip | source/signaling.cpp:36-112 | every entry the builders write is read back with all its fields, whatever the reused buffer held in its callsign fields before |
| SignalFrames.RunKeepsOrder | source/signaling.cpp:476-532 | over any run of additions and pushes, refused frames included, the closed frames and the open one hold exactly the entries added, in order, and all fit their length byte |
| SignalFrames.NewFrame | source/signaling.cpp:476-489 | an entry opens a new frame if and only if the present one would grow beyond 247 bytes |
| SignalFrames.FrameOnAir | source/signaling.cpp:492-532 | a frame is the address, protocol 0x1E, its entries and the mark 0xFF, 0x00 |
| SignalFrames.FrameExploitation | source/signaling.cpp:36-112 | the receiver's loop ends and sees the fields of the walk |
| SignalFrames.FrameRoundTrip | source/signaling.cpp:492-532 | reading a frame back yields the entries it was filled with |
| SignalFrames.WalkToTheEnd | source/signaling.cpp:36-112 | without an end mark a walk sees the entries up to the size of the message |
| SignalFrames.ThroughDecodes | source/signaling.cpp:36-112 | this holds after encoding, damage in one block and decoding |
| SignalFrames.SignalingRoundTrip | source/signaling.cpp:476-532 | of any run of additions and pushes, the frames that the queue took, each repairably damaged in at most one block, are walked as exactly their entries, in order; these are all the entries added when none was refused and the last frame was pushed |
| SignalFrames.EntriesRoundTrip | source/signaling.cpp:36-532 | from the builders to the handlers: whatever entries are built, added and pushed, the handlers get those of the frames that the queue took, all fields included and in order; these are all of them when none was refused and the last frame was pushed |
| SignalFrames.SignalBuffer.AddEntry | source/signaling.cpp:476-489 | the buffer changes as the packer's addition step, and the queue grows by exactly the frame that was full, if there was one and the queue had room |
| SignalFrames.SignalBuffer.FramePush | source/signaling.cpp:492-532 | the buffer is emptied, and the queue grows by exactly its frame when it has room and not at all otherwise |
| FlashLog.Eeprom.Read | source/config_flash.cpp:33-56 | the scan over the banks yields the highest index and its configuration |
| FlashLog.CountedExactly | source/config_flash.cpp:33-56 | a bank counts if and only if it has the magic word 0xBABEBABE and an index that is neither zero nor blank |
| FlashLog.Eeprom.Write | source/config_flash.cpp:58-80 | a save programs an erased bank and yields the next index |
| FlashLog.ReadyForProgram | source/config_flash.cpp:58-80 | in every ready flash the bank about to be programmed is erased |
| FlashLog.ReadyReadsLast | source/config_flash.cpp:33-56 | in every ready flash the reader finds the last save |
| FlashLog.WriteKeepsReady | source/config_flash.cpp:58-80 | a save leaves the flash ready and is what the reader finds |
| FlashLog.PowerCutHarmless | source/config_flash.cpp:68-76 | a power cut between erase and program leaves the previous save readable |
| FlashLog.RunReadsLastSave | source/config_flash.cpp:33-80 | after any run of saves, power cuts and restarts from a flash without a valid bank, the reader finds the last completed save under the index that counts the saves |
| Numerals.ReadPrinted | pi-pico/jsonconf.cpp:175-185 | printed decimal digits are read back |
| Numerals.AtoiPrinted | pi-pico/jsonconf.cpp:183-186 | a 32-bit word printed as a signed number is restored by atoi, upper half included |
| Numerals.AddressRoundTrip | pi-pico/jsonconf.cpp:187-191 | a printed address is restored by the %i scan, whose prefix 0 means octal |
| Numerals.OctalScanned | pi-pico/jsonconf.cpp:294-296 | behind a zero the scan reads octal |
| Numerals.HexScanned | pi-pico/jsonconf.cpp:294-296 | behind 0x it reads hexadecimal |
| Numerals.DecimalScanned | pi-pico/jsonconf.cpp:294-296 | otherwise decimal, behind blanks and a sign |
| JsonConf.ScanOne | pi-pico/jsonconf.cpp:101-124 | if one place only carries the quoted key and a colon, and its opening quote does not also close another occurrence, the search ends with its value, however often the key occurs elsewhere |
| JsonConf.ScanNone | pi-pico/jsonconf.cpp:101-124 | if no place does, the key is reported missing |
| JsonConf.Search | pi-pico/jsonconf.cpp:101-124 | the loop computes the search |
| JsonConf.JsonGet | pi-pico/jsonconf.cpp:101-143 | key search, end of value and the three error answers are those of the lookup |
| JsonConf.QuotedAnswer | pi-pico/jsonconf.cpp:125-142 | a quoted value is what stands up to the next quote if shorter than 32 characters, too big if not, corrupt without a quote |
| JsonConf.BareAnswer | pi-pico/jsonconf.cpp:129-142 | a bare value ends at the first comma, carriage return or line feed if a carriage return follows anywhere, and at the line feed otherwise |
| JsonConf.NoLineFeed | pi-pico/jsonconf.cpp:129-142 | without a line feed behind it a bare value is corrupt |
| JsonConf.CommaTaken | pi-pico/jsonconf.cpp:129-142 | with line feeds alone the comma behind "true" is read as part of the value |
| Settings.SetShown | pi-pico/jsonconf.cpp:159-304 | every field is restored from the text printed for it |
| Settings.InTheFile | pi-pico/jsonconf.cpp:159-204 | the texts printed for a flag, a number, an unsigned word, an address and a name |
| Settings.OutOfTheFile | pi-pico/jsonconf.cpp:240-304 | what is made of such texts; a flag is set by "true" only, and without a value the default is taken |
| Settings.TooLong | pi-pico/jsonconf.cpp:240-304 | a name is cut to twelve characters, and a text that is no address leaves the old address |
| Settings.NumbersCut | pi-pico/jsonconf.cpp:240-304 | a number too big for its field is cut to its low bits |
| Settings.LinesInTheFile | pi-pico/jsonconf.cpp:226 | a member as it stands in the file, first or behind another one, bare or quoted |
| Settings.FlagRoundTrip | pi-pico/jsonconf.cpp:171-178 | a flag survives if and only if it is 0 or 1 |
| Settings.LineKeys | pi-pico/jsonconf.cpp:226 | inside a printed member the search can stop at the name only, whatever the value contains |
| Settings.LineValue | pi-pico/jsonconf.cpp:125-142 | the end of a printed value is found, quoted or not |
| Settings.QuotedValue | pi-pico/jsonconf.cpp:125-142 | of a printed quoted text the part in front of its first double quote is found, which is the text if and only if it has none |
| Settings.OneKey | pi-pico/jsonconf.cpp:207-237 | in a saved file exactly one place carries the name of a member that was written |
| Settings.NoKey | pi-pico/jsonconf.cpp:207-237 | no place carries the name of an omitted one, even as a value or part of another name |
| Settings.LookupSaved | pi-pico/jsonconf.cpp:101-237 | looking a name up in a saved file yields its printed text, or nothing if that is the default |
| Settings.RoundTrip | pi-pico/jsonconf.cpp:207-327 | saving and reading restores every field, whatever it held before, defaults included |
| Settings.NprRoundTrip | pi-pico/jsonconf.cpp:50-80 | the modem's whole configuration survives a save and a restart |
| Settings.Store.Save | pi-pico/jsonconf.cpp:207-237 | the file written is the document of the current values, texts cut to the 31 characters of the print buffer |
| Settings.Store.Read | pi-pico/jsonconf.cpp:318-327 | every field gets the value restored from the file |
| Snmp.RowsFound | source/SNMP.cpp:376-417 | GET on a row's name finds that row, GET-NEXT the one behind it and nothing behind the last |
| Snmp.NprRows | source/SNMP.cpp:30-58 | the modem's nine rows are found so, and hold the numbers measured in four octets |
| Snmp.NprName | source/SNMP.cpp:30-58 | their names and types |
| Snmp.AnswerBytes | source/SNMP.cpp:376-455 | a GET of a row is answered under its name with its value, a GET-NEXT under the name of the row behind it with that row's value, and behind the last row the request comes back |
| Snmp.UnknownAnswer | source/SNMP.cpp:376-455 | for an unknown name a GET brings the request back and a GET-NEXT the first row |
| Snmp.ErrorFields | source/SNMP.cpp:443-556 | with all names answered the error fields are those of the request, otherwise the status is 2 and the index counts from one up to the last name without an answer |
| Snmp.Layout | source/SNMP.cpp:505-632 | request and response tag by tag and length by length, and the version and community that are answered |
| Snmp.LeafLayout | source/SNMP.cpp:306-350 | an element is its tag, one, two or three length octets and its contents |
| Snmp.WellFormedExactly | source/SNMP.cpp:502-548 | the response is a well-formed nest of messages if and only if its lengths fit the copied headers and message, PDU and list headers have the same size |
| Snmp.LongListMalformed | source/SNMP.cpp:479-548 | an accepted request whose list header alone spells its length with two octets is answered by a malformed message |
| Snmp.OneOctetLengths | source/SNMP.cpp:306-632 | a request with one-octet lengths whose response stays within 127 octets is answered with every nested length equal to the bytes enclosed, as section 4.1 of RFC 1157 asks |
| Snmp.Agent.ParseLength | source/SNMP.cpp:331-350 | lengths spelt with any number of octets that lie in the request are read modulo 16 bits |
| Snmp.Agent.ParseTlv | source/SNMP.cpp:352-373 | start, length, value position and next position of an element are those of its bytes |
| Snmp.Agent.InsertLength | source/SNMP.cpp:306-329 | the length octets of a copied header are replaced and nothing else |
| Snmp.Agent.ParseVarBind | source/SNMP.cpp:376-455 | a name and value are consumed and answered by the row, or copied and noted as missing |
| Snmp.Agent.ParseSequence | source/SNMP.cpp:457-477 | a bind is answered by a bind with the right length |
| Snmp.Agent.ParseSequenceOf | source/SNMP.cpp:479-503 | the whole list is answered, its own length is right, the size returned lacks its header, and the last missing name is noted |
| Snmp.Agent.ParseRequest | source/SNMP.cpp:505-557 | the PDU is answered with the lengths and error fields stated |
| Snmp.Agent.ParseCommunity | source/SNMP.cpp:559-585 | a wrong community refuses the request |
| Snmp.Agent.ParseVersion | source/SNMP.cpp:587-606 | a wrong version refuses the request |
| Snmp.Agent.Parse | source/SNMP.cpp:608-632 | an accepted request is consumed to its last byte and the buffer holds exactly the response, whatever its lengths as long as it fits the buffer; any other is refused |

## Left out

- Hardware access: SPI, GPIO, timers, the Ethernet controller, Wi-Fi, USB, the file system and firmware updates. Clocks and chip answers are parameters.
- User commands over telnet and serial line: user interface.
- DHCP and ARP (source/DHCP_ARP.cpp): what can be said is about single branches.
- Signal strength, bit error rate, frequency synthesis, temperature correction and the timing-advance filter: floating point. Timing advances are arbitrary integers.
- Floating-point configuration fields: modelled by their printed text, so the rounding of printing and reading is not modelled.
- The FDD paths and the recovery transmissions (source/SI4463.cpp:921-928, source/signaling.cpp:544-546): they bypass the schedule.
- The flag handling inside SI4463_RX_IT and SI4463_HW_TX_IT: only its steps start, chunk, completion and rewind.
- Queue pointers and the receive ring's pointers are natural numbers: their 32-bit wrap-around is not modelled, and the state after a flush torn by a read, which the source goes on from with a negative filling, is left as out of order.
- RxFifo.Fifo.Interrupt: covers interrupts that keep within a ring of the reader; what goes on after an overrun is not modelled.
- Receiver.Radio.Dequeue: requires that the record does not overfill its row, beyond which the source writes behind the 1600 bytes. The signalling and allocation branches of the dispatch are modelled separately and not called from it, and the decoder reads the record in one step.
- Receiver.Radio.Dispatch: requires the same.
- Receiver.Radio.AddSegment: requires the same, and the rows of the reassembly buffers are values in a sequence, not separate arrays.
- Signaling.EntryRoundTrip: a master's callsign in an acknowledgement, which the source reads without forcing a zero, has to end inside its field.
- AllocFrame.AllocExploitation: the mask table is read beyond its eight entries for numbers that the master never sends; such masks count as 0.
- Bursts.Client.SlaveTimeout: the interrupt that fires the burst at the time computed is not modelled.
- TxQueue.BlockRing.DecideTx: the branches for a radio switched off and for full-duplex masters are not modelled.
- FlashLog.Eeprom.Write: programming a bank is taken as atomic, and indices stay below 0xFFFFFFFF.
- Copying the configuration between variables and the flash record (source/config_flash.cpp:155-258): one assignment per field.
- Settings.Store.Read: the file is read whole, and the fields derived from the table afterwards (modulation, frequency, hardware addresses) are not modelled.
- Settings.RoundTrip: texts with a double quote are outside, because the file ends them at the quote, and so are texts of more than 31 characters, which saving cuts.
- Settings.NprRoundTrip: the same, and a flag holding another value than 0 and 1.
- Snmp.Agent.Parse: SET requests and malformed requests are not modelled, nor are lengths with three or more octets in front of the nests that the response copies.
- Snmp.Agent.ParseLength: the octet 0x80, which the source takes for 65535 more octets, is excluded.
- Snmp.Agent.ParseVarBind: the table's values are parameters.
