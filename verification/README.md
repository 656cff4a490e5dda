# UDT4: a verified model of the reliable transport

UDT carries a byte stream, or messages, over datagrams.  The model covers the
core of `UDT4/src` and the read cache of the file system client that uses it.

The model has three layers.

* **Data structures, in the form the code has them.**  Classes with arrays,
  linked blocks and loops for the sender's and receiver's loss lists
  (`SndLossList`, `RcvLossList`), the send ring (`SndBuffer`), the receive ring
  with stream and message reads (`RcvBuffer`), the unit pool that all receive
  buffers share (`UnitPool`), the history of acknowledgements (`AckWindow`), the
  send scheduler (`SndUList`), streaming MD5 (`Md5`), the packet time windows
  (`PktTimeWindow`) and the read cache (`UdtfsCache`).  Each refines a simple
  abstraction: a set of numbers, a queue of packets, a byte queue, a bounded
  history, a heap order.
* **The protocol as a transition system** (`Protocol`): sender, receiver and a
  network that may drop, reorder and duplicate, over unbounded indices.
  A run starts with an initial number, the size of the receive buffer and the
  first window, which is the smaller of that size and the flight size.
  `ProtocolSteps` says in numbers what each step does; `ProtocolInv` proves the
  invariant for every run, `ProtocolTheorems` the safety
  results, `ProtocolProgress` that it cannot get stuck, and `ProtocolLimits` for
  which sizes the arrays of the loss lists are large enough.  `Messages`,
  `Reassembly` and `MessageRuns` do the same for message mode, `MessageEnd`
  shows that the methods of the receive buffer are the steps of those runs, and
  `MessageProgress` when all messages can be read.
* **The endpoints** (`SenderEnd`, `ReceiverEnd`): classes with the wrapped fields
  of the source and the data structures above, whose methods are proved to compute
  the protocol's steps.  `Endpoints` shows that the methods may be called in
  every reachable state, as long as no number in use is half the number space old.
  `Connection` joins a sender and a receiver by a wire that carries nothing but
  the words of packets: whatever is lost, delayed or repeated on it, the bytes
  read are the first bytes sent, and the messages read are messages sent.
  `Session` sets up a connection and runs it through any sequence of events.

`SeqNo` is the arithmetic of wrapped numbers.  An index `x` travels as `Wrap(x)`;
ghost parameters name the indices behind the numbers a method is given.
Locked sections are atomic steps.  Time, the congestion window, the measured
round trip, the packet's fate on the network and the server's answers are
parameters or free choices of the run.  `assert false` marks branches of the source
that cannot be taken: an empty acknowledged slot, a record at the head of the window.

Where the code is not what one would expect, the model follows the code:

* Removing a node from the scheduler only sifts down, and `update` removes nodes
  from the middle; `RemoveNode` states exactly when order survives.
* `update` does not grow the scheduler's array: a new node needs room, which only
  `insert`, called from nowhere, provides.  `FullHeap` is where it has none.
* Range removal from the receiver's loss list leaves 0x7FFFFFFF in the list if the
  range reaches over it, and does not end if the range ends there.
* The option for the flight size does not look at the buffer size, so a buffer may
  be larger than the window it is advertised with at first.  The sender's loss list
  of twice that window can then be too small; `ProtocolLimits` says exactly when.
* The message number is never wrapped at 2^29.
* The search for a free unit never looks at the last unit of a block.
* `readMsg` is meant to return a part of a message larger than the buffer.  While
  such a message fills the ring and is not all acknowledged, it is found and then
  nothing is copied, because the loop ends where it begins; once all of it is
  acknowledged, it is not found.  `ReadMsg` returns no bytes in both cases.
* `scanMsg` takes a buffer with one packet at the next slot for empty (line 590).
* By its description in `packet.cpp` an interval of two numbers is coded as two
  single numbers; the code marks it as an interval.
* With an initial sequence number of 0 the fields for the current number start
  at -1.
* A read beyond the end of a file is not cropped, because sizes are compared
  unsigned.
* Sorting to find a median reorders the window it is computed from, so that the next
  arrival may replace another interval than the oldest; `SortedNewest` says exactly when.
* A receiver whose acknowledgements go unconfirmed for half the number space stops
  acknowledging (`GoesMute`).

## Model

| member | source | states |
|---|---|---|
| `SeqNo.CmpExact` | UDT4/src/common.h:206-207 | `seqcmp` orders all pairs of numbers at distance d exactly when abs(d) < 0x3FFFFFFF; from there on some pair compares backwards |
| `SeqNo.OffExact` | UDT4/src/common.h:212-221 | `seqoff` is the distance for all pairs at distance d exactly when abs(d) < 0x3FFFFFFF, wrap included |
| `SeqNo.LenExact` | UDT4/src/common.h:209-210 | `seqlen` counts every range of d+1 numbers exactly when 0 <= d < 2^31 |
| `SeqNo.LenOverflow` | UDT4/src/common.h:209-210 | the one input whose `seqlen` does not fit 32 bits: a range that is the full circle |
| `SeqNo.WrapStep` | UDT4/src/common.h:223-227 | `incseq` and `decseq` move by one index across the wrap and undo each other |
| `SeqNo.IncSeqByAdds` | UDT4/src/common.h:229-230 | `incseq(s, n)` moves by n indices for every n up to the largest number |
| `SeqNo.CmpOfNear` | UDT4/src/common.h:206-207 | within the sequence window the sign of `seqcmp` is that of the index difference |
| `LossNodes.SlotInjective` | UDT4/src/list.cpp:94-120 | within one lap two numbers share a slot only if they are equal |
| `LossNodes.SlotMove` | UDT4/src/list.cpp:94-120 | adding an offset to a slot modulo the array size gives the slot of the number that far ahead |
| `LossNodes.SumIsCard` | UDT4/src/list.cpp:369-374 | the length field equals the cardinality of the set |
| `SndLossList.SndLossList.constructor` | UDT4/src/list.cpp:43-70 | a new list is empty |
| `SndLossList.SndLossList.Insert` | UDT4/src/list.cpp:85-255 | the set becomes its union with a..b and the result is the exact number of new members, for every overlap, coalescing and wrap, as long as the union spans less than the array; the search hint stays on a live interval or -1 |
| `SndLossList.SndLossList.Coalesce` | UDT4/src/list.cpp:213-254 | merging all intervals the new one runs into changes nothing in the set and restores disjointness |
| `SndLossList.SndLossList.FindPrior` | UDT4/src/list.cpp:130-166 | the search, from the hint or from the head, ends at the last interval that starts before the number |
| `SndLossList.SndLossList.Grow` | UDT4/src/list.cpp:114-128 | inserting inside an interval adds exactly the numbers beyond its end |
| `SndLossList.SndLossList.Remove` | UDT4/src/list.cpp:257-367 | exactly the members up to and including the number leave |
| `SndLossList.SndLossList.GetLostSeq` | UDT4/src/list.cpp:376-418 | pops the minimum; -1 exactly when the set is empty |
| `SndLossList.SndLossList.GetLossLength` | UDT4/src/list.cpp:369-374 | returns the cardinality |
| `RcvLossList.RcvLossList.constructor` | UDT4/src/list.cpp:422-446 | a new list is empty |
| `RcvLossList.RcvLossList.Insert` | UDT4/src/list.cpp:456-504 | a range beyond all members is added as a whole; back links keep mirroring forward links |
| `RcvLossList.RcvLossList.Remove` | UDT4/src/list.cpp:506-636 | exactly the number leaves, found says whether it was a member; head shift, tail trim, middle split; unused slots stay -1 |
| `RcvLossList.RcvLossList.ScanBack` | UDT4/src/list.cpp:585-592 | the backward search for a used slot ends, at the interval before the number |
| `RcvLossList.RcvLossList.RemoveRange` | UDT4/src/list.cpp:638-654 | where the loop of the straight branch ends, what a range removal forgets is the range without 0x7FFFFFFF |
| `RcvLossList.ForgottenExact` | UDT4/src/list.cpp:638-654 | a range removal that returns is exact if and only if `seqno1 <= seqno2`: the branch for a range over the wrap always leaves 0x7FFFFFFF |
| `RcvLossList.WrapLeavesMax` | UDT4/src/list.cpp:645-651 | the range 0x7FFFFFFF..0: its first number stays |
| `RcvLossList.StraightEndsExact` | UDT4/src/list.cpp:640-644 | counting in 32 bits, the straight loop ends if and only if its last number is not 0x7FFFFFFF |
| `RcvLossList.RcvLossList.Find` | UDT4/src/list.cpp:656-674 | true exactly when some member lies in the range |
| `RcvLossList.RcvLossList.GetFirstLostSeq` | UDT4/src/list.cpp:681-687 | the minimum; -1 exactly when empty |
| `RcvLossList.RcvLossList.GetLossLength` | UDT4/src/list.cpp:676-679 | returns the cardinality |
| `RcvLossList.RcvLossList.GetLossArray` | UDT4/src/list.cpp:689-716 | writes the code of a prefix of the intervals, all of them if they fit, within the limit and nothing beyond; decoding gives those intervals back |
| `Nak.RoundTrip` | UDT4/src/packet.cpp:123-139 | the sender reads off exactly the intervals the receiver wrote |
| `Nak.WordsAre` | UDT4/src/packet.cpp:123-139 | one word for a single number; for an interval the first number with the top bit set, then the last |
| `PacketHeader.ComposeExact` | UDT4/src/buffer.cpp:144-148 | boundary, order flag and message number read back as written if and only if the number is below 2^29 |
| `PacketHeader.ComposeIs` | UDT4/src/packet.cpp:308-324 | which bit of the word says first, last and in order, and which the message number |
| `PacketHeader.BoundaryCases` | UDT4/src/packet.cpp:308-312 | what the two boundary bits say about first and last packet of a message |
| `SndBuffer.SndBuffer.constructor` | UDT4/src/buffer.cpp:47-91 | an empty ring of blocks |
| `SndBuffer.SndBuffer.AddBuffer` | UDT4/src/buffer.cpp:120-162 | appends the message cut into blocks, with the words of a message; the cursor stays |
| `SndBuffer.SndBuffer.Increase` | UDT4/src/buffer.cpp:317-374 | more blocks in the ring; neither the stored packets nor the cursor change |
| `SndBuffer.SndBuffer.Reserve` | UDT4/src/buffer.cpp:126-128 | after growing, the new blocks fit and one block stays unused |
| `SndBuffer.SndBuffer.ReadNew` | UDT4/src/buffer.cpp:249-262 | the packet at the cursor, none exactly when the cursor is behind the last one |
| `SndBuffer.SndBuffer.ReadAt` | UDT4/src/buffer.cpp:264-298 | a retransmission reads the packet that far from the first |
| `SndBuffer.SndBuffer.AckData` | UDT4/src/buffer.cpp:300-310 | exactly the first n packets leave, the cursor stays on its packet |
| `SndBuffer.SndBuffer.GetCurrBufSize` | UDT4/src/buffer.cpp:312-315 | the number of packets held |
| `ByteStream.ChunksCut` | UDT4/src/buffer.cpp:130-142 | the blocks concatenate to the data, none is empty or longer than the payload size |
| `ByteStream.ChunksCount` | UDT4/src/buffer.cpp:122-124 | there are ceil(len / mss) of them |
| `ByteStream.BlocksEnough` | UDT4/src/buffer.cpp:122-124 | that is the least number of blocks that hold them |
| `UnitPool.UnitQueue.constructor` | UDT4/src/queue.cpp:85-125 | a pool of one block of free units |
| `UnitPool.UnitQueue.Occupy` | UDT4/src/buffer.cpp:421-431 | a slot gets a free unit: busy units and slots stay in one-to-one correspondence over all buffers, and the count counts them |
| `UnitPool.UnitQueue.Release` | UDT4/src/buffer.cpp:452-455 | a slot gives its unit back: it is free and in no slot |
| `UnitPool.UnitQueue.Recount` | UDT4/src/queue.cpp:129-144 | the recount finds the number of busy units |
| `UnitPool.UnitQueue.Increase` | UDT4/src/queue.cpp:127-186 | the recount leaves the count as it is; from nine tenths of the size on a block of free units joins and the ring of blocks stays closed |
| `UnitPool.UnitQueue.ScanBlock` | UDT4/src/queue.cpp:208-217 | one block is searched in vain exactly when its first unit and those from the current place to the last but one are busy |
| `UnitPool.UnitQueue.Search` | UDT4/src/queue.cpp:204-222 | comes back empty-handed exactly when all units it looks at, block by block, are busy; the last unit of a block of several is never looked at |
| `UnitPool.UnitQueue.ExhaustedIs` | UDT4/src/queue.cpp:204-222 | in vain means: every free unit is the last of a block of several, or lies in the current block between its first place and the current one |
| `UnitPool.UnitQueue.GetNextAvailUnit` | UDT4/src/queue.cpp:194-223 | what is returned is a free unit of the pool; nothing is returned exactly when at most nine tenths are in use and the search is in vain; exactly when the pool grows |
| `UnitPool.UnitQueue.LastUnitsMissed` | UDT4/src/queue.cpp:208-217 | with only the last units of blocks free, the search is in vain |
| `Inputs.UnitMissed` | UDT4/src/queue.cpp:194-223 | a pool of two units with the first in use: half of it is free, and no unit is returned |
| `UnitPool.UnitQueue.FreeUnreferenced` | UDT4/src/buffer.cpp:418-433 | a free unit is in no slot of any buffer, so none is handed out twice |
| `UnitPool.UnitQueue.InOneSlot` | UDT4/src/buffer.cpp:418-433 | no two slots of a buffer refer to the same unit |
| `UnitPool.UnitQueue.BuffersApart` | UDT4/src/buffer.cpp:418-433 | two receive buffers never refer to the same unit, so neither can disturb the other |
| `UnitPool.UnitQueue.CountIsOccupied` | UDT4/src/queue.cpp:129-144 | the count of the pool is the number of occupied slots over all buffers |
| `RcvBuffer.RcvBuffer.constructor` | UDT4/src/buffer.cpp:390-402 | an empty ring |
| `RcvBuffer.RcvBuffer.AddData` | UDT4/src/buffer.cpp:418-433 | -1 exactly when the slot is taken; otherwise the packet is at its index and everything else is unchanged |
| `RcvBuffer.RcvBuffer.ReadBuffer` | UDT4/src/buffer.cpp:435-470 | for every length and notch the result and the new state are those of taking the first bytes of the byte queue |
| `ByteStream.ReadIsQueue` | UDT4/src/buffer.cpp:435-470 | that is: exactly the first min(len, available) acknowledged bytes are returned, what is left is the rest, and exactly the slots used up are given up |
| `RcvBuffer.RcvBuffer.AckData` | UDT4/src/buffer.cpp:508-516 | the next slots become readable and nothing else changes |
| `RcvBuffer.RcvBuffer.GetRcvDataSize` | UDT4/src/buffer.cpp:524-530 | the number of acknowledged unread slots |
| `RcvBuffer.RcvBuffer.GetAvailBufSize` | UDT4/src/buffer.cpp:518-522 | all slots but these and one |
| `RcvBuffer.RcvBuffer.Close` | UDT4/src/buffer.cpp:404-416 | exactly the units still in slots go back to the pool |
| `RcvBuffer.RcvBuffer.LookAhead` | UDT4/src/buffer.cpp:609-626 | the look ahead over the message at the read position never fails: nothing of an unread message that has begun is missing |
| `RcvBuffer.RcvBuffer.SkipRead` | UDT4/src/buffer.cpp:594-637 | the first loop of scanMsg gives up only units that were read out of order, never an unread one |
| `RcvBuffer.RcvBuffer.FindMsg` | UDT4/src/buffer.cpp:639-683 | the second loop finds the first readable message, nothing exactly when there is none |
| `RcvBuffer.RcvBuffer.ScanMsg` | UDT4/src/buffer.cpp:587-693 | whole messages are found first to last; without one, an answer is given exactly for an unread message that fills the whole ring and is not all acknowledged |
| `RcvBuffer.RcvBuffer.ReadMsg` | UDT4/src/buffer.cpp:539-578 | returns the first readable message, cut to the given length; exactly its packets stop being pending; something is returned exactly when a message is readable and the test for an empty buffer does not apply; an ordered message is returned only if nothing before it is pending |
| `RcvBuffer.RcvBuffer.GetRcvMsgNum` | UDT4/src/buffer.cpp:580-585 | 1 exactly when a message is readable or an unread one not all acknowledged fills the ring, and the test for an empty buffer does not apply; 0 otherwise |
| `RcvBuffer.RcvBuffer.FillsExactly` | UDT4/src/buffer.cpp:685-692 | the last test of scanMsg holds exactly for such a message |
| `Reassembly.TooLong` | UDT4/src/buffer.cpp:539-578 | a message of at least as many packets as the ring has slots is never readable |
| `Reassembly.CutIs` | UDT4/src/buffer.cpp:549-557 | what is copied of a message is its first bytes, as many as asked for if there are as many, all for a negative length |
| `Inputs.SoloTurnedAway` | UDT4/src/buffer.cpp:589-591 | an empty buffer gets one packet that is a message and need not wait: it is readable, and readMsg returns nothing |
| `Inputs.LongMessage` | UDT4/src/buffer.cpp:685-692 | a message of at least as many packets as the ring has slots: counted and read as nothing before it is acknowledged, not even counted afterwards |
| `Reassembly.WholeIsMessage` | UDT4/src/buffer.cpp:639-683 | whole slots from a begin to an end are a message of the packet stream, byte for byte |
| `Reassembly.ScanTurn` | UDT4/src/buffer.cpp:646-683 | one turn of the search either finds the first readable message or keeps what the search knows |
| `Reassembly.ArrivalKeeps` | UDT4/src/buffer.cpp:418-433 | packets arriving in any order keep messages whole |
| `Reassembly.MarkKeeps` | UDT4/src/buffer.cpp:568-569 | so does reading a message out of order |
| `Reassembly.TakeKeeps` | UDT4/src/buffer.cpp:559-565 | and reading the first message |
| `Messages.MessagesAreSent` | UDT4/src/buffer.cpp:120-162 | what looks like a message in the packet stream is one call of sendmsg, with its bytes and order flag |
| `Messages.StreamDelimited` | UDT4/src/buffer.cpp:130-152 | in the stream of all packets sent every message begins where the one before it ends |
| `MessageRuns.ReadableIsSent` | UDT4/src/buffer.cpp:539-578 | what readMsg finds readable is one of the messages sent, byte for byte |
| `MessageRuns.MessagesOnceInTurn` | UDT4/src/buffer.cpp:539-693 | in every run of sends, arrivals, acknowledgements and reads: no message twice, an ordered one only after all before it, every read returns the bytes of its message up to the length asked for, and a packet is pending exactly while its message is unread |
| `MessageProgress.AllCanBeReturned` | UDT4/src/buffer.cpp:539-693 | from every state that a run reaches, some run of arrivals, acknowledgements and reads returns all messages sent so far, however readMsg answers, if and only if each of them has fewer packets than the ring has slots |
| `MessageProgress.TooLongStays` | UDT4/src/buffer.cpp:539-693 | a message that is too long is never returned |
| `MessageProgress.SomeHonest` | UDT4/src/buffer.cpp:539-693 | in every state of such a run there is an answer that readMsg may give |
| `MessageEnd.MessageEnd.Arrive` | UDT4/src/buffer.cpp:418-433 | addData on the ring is the arrival of that packet in the run, or changes nothing |
| `MessageEnd.MessageEnd.Ack` | UDT4/src/buffer.cpp:508-516 | ackData on the ring is the acknowledgement in the run |
| `MessageEnd.MessageEnd.Read` | UDT4/src/buffer.cpp:539-578 | readMsg on the ring is a read of the run, of one message or of none, and returns what the run records |
| `ProtocolInv.RunKeeps` | UDT4/src/core.cpp:2045-2240 | the invariant of sender, receiver and network holds after every run of events |
| `ProtocolInv.StepKeeps` | UDT4/src/core.cpp:1545-1985 | every single step keeps it: sending, both halves of packData, acknowledgements, loss reports, timers, arrivals, reads, drops |
| `ProtocolTheorems.DeliveredIsPrefix` | UDT4/src/core.cpp:2045-2240 | exactly once and in order: under loss, reordering and duplication what was read is a prefix of what was sent |
| `ProtocolTheorems.AcksAreTrue` | UDT4/src/core.cpp:1550-1636 | every light or full acknowledgement names a number below which everything has arrived; what has not arrived can still be sent |
| `ProtocolTheorems.HolesAreLosses` | UDT4/src/core.cpp:2203-2237 | from the acknowledged to the current number a number is in the loss list exactly when its slot is empty; no acknowledged unread slot is |
| `ProtocolTheorems.FlowBound` | UDT4/src/core.cpp:1754-1801 | a number sent, and the last one the window lets be sent, is below two beyond what the receive buffer can hold; after any timeout the sender may list no more than the larger of the first window and what an acknowledgement can advertise |
| `ProtocolTheorems.LiteKeepsLimit` | UDT4/src/core.cpp:1757-1767 | a light acknowledgement does not let the sender go further |
| `ProtocolLimits.SenderNeeds` | UDT4/src/core.cpp:686 | in no run does the sender list outgrow an array of n slots, if and only if n is at least the larger of the first window, the buffer size less one, and 2 |
| `ProtocolLimits.TwiceTheWindow` | UDT4/src/core.cpp:686 | an array of twice the first window is enough if and only if the peer's buffer has at most twice that window plus one slots |
| `ProtocolLimits.FlightSize` | UDT4/src/core.cpp:687 | an array of the flight size is enough for the receiver if and only if its buffer has at most two slots more |
| `ProtocolTheorems.SamePayload` | UDT4/src/core.cpp:2057-2105 | a sequence number always carries the same payload, however often and whenever it is sent |
| `ProtocolTheorems.NeverBroken` | UDT4/src/core.cpp:1787-1793 | an honest peer never trips the checks against forged acknowledgements and reports |
| `ProtocolTheorems.StepMoves` | UDT4/src/core.cpp:1880-1904 | the numbers of both sides only advance; the number the peer has confirmed never passes the one acknowledged |
| `ProtocolProgress.NeverStuck` | UDT4/src/core.cpp:2300-2398 | from every reachable state, even with everything under way dropped, some run delivers all accepted bytes |
| `ProtocolProgress.CatchUp` | UDT4/src/core.cpp:2368-2376 | the expiration timer suffices to get across everything sent so far |
| `ProtocolInv.FrontierMeans` | UDT4/src/core.cpp:1554-1559 | the number to acknowledge is the first one missing |
| `ProtocolSteps.PackStartIs` | UDT4/src/core.cpp:2056-2112 | the first half of packData in numbers: the least lost one first, a new one within both windows and not otherwise |
| `ProtocolSteps.PackFinishIs` | UDT4/src/core.cpp:2059-2092 | the second half in numbers |
| `ProtocolSteps.AckedStays` | UDT4/src/core.cpp:1757-1767 | once a number is acknowledged, lightly or in full, no timeout and no report ever adds a number below it to the loss list, in any run |
| `ProtocolSteps.FullAckIs` | UDT4/src/core.cpp:1784-1824 | a full acknowledgement in numbers |
| `ProtocolSteps.LiteIs` | UDT4/src/core.cpp:1550-1571 | when a light acknowledgement goes out and what it names, by what has arrived |
| `ProtocolSteps.FullIs` | UDT4/src/core.cpp:1573-1640 | when a full one goes out and what it brings, by what has arrived |
| `SenderEnd.SenderEnd.constructor` | UDT4/src/core.cpp:558-562 | the state after the handshake, an initial number of 0 included |
| `SenderEnd.SenderEnd.Send` | UDT4/src/core.cpp:893-970 | all of the data is taken or the send buffer is left full, and never overfull; what is taken is the protocol step on that part; a caller that does not wait is told when the buffer is full |
| `SenderEnd.SenderEnd.SendMsg` | UDT4/src/core.cpp:1048-1123 | a message is taken, as a whole and as the protocol step, if and only if its packets fit beside those held; one of more packets than the send buffer ever holds is refused as too large |
| `SenderEnd.SenderEnd.PackStart` | UDT4/src/core.cpp:2056-2112 | first half of packData, with wrapped numbers, the loss list and the ring: the least lost number is popped; without any, the next block is sent if and only if there is one and what is in flight is below both the flow and the congestion window |
| `SenderEnd.SenderEnd.PackFinish` | UDT4/src/core.cpp:2059-2092 | second half: the block of the popped number, none if and only if it was released in between |
| `SenderEnd.SenderEnd.Pack` | UDT4/src/core.cpp:2045-2112 | what goes out carries the wrapped number, the payload and the message word of that packet of the stream |
| `SenderEnd.SenderEnd.OnLiteAck` | UDT4/src/core.cpp:1757-1767 | the light acknowledgement on wrapped fields: the last number acknowledged becomes the larger of its old value and the one named, and the window shrinks by as much; nothing else changes |
| `SenderEnd.SenderEnd.OnFullAck` | UDT4/src/core.cpp:1784-1824 | the full acknowledgement: a number beyond the next one breaks the connection; otherwise the window is the one it brings unless a later number is acknowledged already, and exactly what is below the number is released and no longer lost |
| `SenderEnd.SenderEnd.OnNak` | UDT4/src/core.cpp:1918-1966 | the loop over the words of a report is the protocol step on the intervals they code: the list gains the unacknowledged numbers of the intervals before the first refused one, and the connection breaks if and only if one is refused |
| `SenderEnd.ReportAdds` | UDT4/src/core.cpp:1918-1966 | that closed form, for every list of intervals |
| `SenderEnd.AcceptsMeans` | UDT4/src/core.cpp:1927-1957 | the interval refused is the first one that runs backwards or beyond what was sent |
| `SenderEnd.SenderEnd.OnExp` | UDT4/src/core.cpp:2370-2376 | after the timeout the lost numbers are those before and all that were sent and not acknowledged |
| `ReceiverEnd.ReceiverEnd.constructor` | UDT4/src/core.cpp:672-688 | the state after the handshake |
| `ReceiverEnd.ReceiverEnd.OnData` | UDT4/src/core.cpp:2203-2239 | guard, slot, gap, report and closing of a gap on wrapped numbers are the protocol step; the words sent code the gap |
| `ReceiverEnd.ReceiverEnd.SendLite` | UDT4/src/core.cpp:1550-1571 | a light acknowledgement is sent if and only if the packet that the peer knows to be missing has arrived; it names the first packet that has not |
| `ReceiverEnd.ReceiverEnd.SendFull` | UDT4/src/core.cpp:1573-1640 | all that has arrived in order becomes readable; an acknowledgement of it is sent if and only if the packet the peer knows to be missing has arrived and there is something new or it is time to repeat; it offers the slots left, at least two; except that it stays silent when the wrapped comparison with the confirmed number fails |
| `ReceiverEnd.ReceiverEnd.SendNak` | UDT4/src/core.cpp:1673-1693 | the periodic report names lost numbers, the smallest ones, all of them if they fit |
| `ReceiverEnd.ReceiverEnd.OnAck2` | UDT4/src/core.cpp:1880-1904 | the acknowledgement of an acknowledgement is the protocol step |
| `ReceiverEnd.ReceiverEnd.AppRecv` | UDT4/src/core.cpp:972-1046 | reading is the protocol step and the bytes returned are those added to what was delivered |
| `ReceiverEnd.ReceiverEnd.RecvMsg` | UDT4/src/core.cpp:1126-1207 | a message read is what readMsg promises of the slots, and the protocol step of reading the bytes of the slots given up |
| `Endpoints.SenderReady` | UDT4/src/core.cpp:669-687 | in every reachable state, whatever the first window, the sender methods may be called with a list of the size that is needed |
| `Endpoints.ReceiverReady` | UDT4/src/core.cpp:672-688 | so may those of the receiver, while the number the peer has confirmed is in the sequence window |
| `ReceiverEnd.MuteExact` | UDT4/src/core.cpp:1606-1607 | that happens exactly when the confirmed number is 0x3FFFFFFF or more behind, at the first three distances only if the number space does not wrap in between |
| `Endpoints.GoesMute` | UDT4/src/core.cpp:1606-1607 | a run in which all data arrives and is read but no acknowledgement is ever confirmed, until the receiver no longer sends what the protocol sends |
| `Endpoints.MessagesReach` | UDT4/src/core.cpp:1752-1985 | every recent message under way carries numbers both ends can tell apart |
| `Endpoints.PendingReach` | UDT4/src/core.cpp:2057-2064 | so does a number popped for retransmission, however old |
| `Connection.Connection.constructor` | UDT4/src/core.cpp:669-688 | both ends after the handshake, all parts new, and nothing on the wire |
| `Connection.Connection.Send` | UDT4/src/core.cpp:893-970 | send or sendmsg on the sending end is that step of the run; a message taken is added to those sent |
| `Connection.Connection.Pack` | UDT4/src/core.cpp:2045-2112 | packData is that step, within both windows, and the words of the packet it sends, if any, are the one thing added to the wire |
| `Connection.Connection.ToSender` | UDT4/src/core.cpp:1752-1985 | an acknowledgement or report on the wire, read from its words alone, is that step of the run; a confirmation goes out exactly when the protocol sends one |
| `Connection.Connection.DataToReceiver` | UDT4/src/core.cpp:2170-2240 | so is a data packet on the wire; the words of the report of a gap, and nothing else, go out |
| `Connection.Connection.Receive` | UDT4/src/queue.cpp:947-963 | a data packet is read into a unit of the pool, or dropped without one |
| `Connection.Connection.Ack2ToReceiver` | UDT4/src/core.cpp:1880-1904 | the confirmation of an acknowledgement is that step; nothing goes out |
| `Connection.Connection.Lite` | UDT4/src/core.cpp:1550-1571 | the one word of a light acknowledgement goes on the wire if and only if the packet the peer knows to be missing has arrived, and names the first that has not |
| `Connection.Connection.Full` | UDT4/src/core.cpp:1573-1640 | the same of a full acknowledgement, with its number and window |
| `Connection.Connection.Report` | UDT4/src/core.cpp:1673-1693 | and the periodic report of the smallest lost numbers, unless there are none |
| `Connection.Connection.Recv` | UDT4/src/core.cpp:972-1046 | whatever the network did to the words, all bytes recv has returned are the first ones send has accepted |
| `Connection.Connection.RecvMsg` | UDT4/src/core.cpp:1126-1207 | whatever the network did, recvmsg returns a message sendmsg has accepted, cut to the length asked for, not returned before, and if ordered after all before it; or nothing |
| `Connection.Connection.Prefix` | UDT4/src/core.cpp:2045-2240 | the bytes delivered are a prefix of those accepted, for the two classes with their wrapped fields, arrays and rings |
| `Connection.Connection.MessagesDelivered` | UDT4/src/core.cpp:1048-1207 | all messages returned so far are messages sent, byte for byte, none twice, ordered ones in turn |
| `Session.Turn` | UDT4/src/core.cpp:1741-2240 | any call, timer, delivery or loss is that event of the run and keeps both ends and the wire in a state of the protocol |
| `Session.Run` | UDT4/src/core.cpp:669-2240 | a connection from its set-up on, through any sequence of calls, timers, deliveries, losses and repetitions, whose events are those of the script: what is read is a prefix of what was sent, or messages that were sent |
| `Session.YoungInTime` | UDT4/src/common.h:206-207 | while there were fewer than 0x3FFFFFFE events nothing is too old to be told apart |
| `AckWindow.AckWindow.Store` | UDT4/src/window.cpp:83-94 | a bounded queue of size-1 records gains the record, and drops its oldest when full |
| `AckWindow.PushIs` | UDT4/src/window.cpp:83-94 | the last size-1 records are kept |
| `AckWindow.AckWindow.Acknowledge` | UDT4/src/window.cpp:96-150 | in both layouts: the first record with the number is returned and discarded with all older ones; -1 and no change without one |
| `ReceiverEnd.SameFind` | UDT4/src/window.cpp:96-150 | the window finds what the protocol finds in its history |
| `ReceiverEnd.SamePush` | UDT4/src/window.cpp:83-94 | and keeps what the protocol keeps |
| `SndUList.SndUList.InsertNode` | UDT4/src/queue.cpp:350-392 | the node joins, unless it is there; every node knows its place; heap order is kept |
| `SndUList.SndUList.RemoveNode` | UDT4/src/queue.cpp:394-429 | the node leaves and every node knows its place; heap order is kept if and only if the last entry may stand where the node stood |
| `SndUList.SndUList.Update` | UDT4/src/queue.cpp:282-304 | the node is on the heap, due at once if it was to be rescheduled; from an ordered heap of times from 1 on, order is kept if and only if no node was moved from the middle, or the last entry may stand there |
| `SndUList.SndUList.Pop` | UDT4/src/queue.cpp:306-331 | the node served has the earliest time; it leaves or rejoins; heap order is kept |
| `SndUList.SndUList.Insert` | UDT4/src/queue.cpp:255-280 | as InsertNode, with a full array doubled first |
| `SndUList.SndUList.GetNextProcTime` | UDT4/src/queue.cpp:340-348 | the minimum of all times, 0 without any |
| `SndUList.RootIsEarliest` | UDT4/src/queue.cpp:340-348 | in heap order the root is the earliest of all |
| `SndUList.OrderAfter` | UDT4/src/queue.cpp:394-429 | sifting down restores heap order if and only if the moved entry is not before the parent of the vacated place |
| `SndUList.SndUList.WritesInside` | UDT4/src/queue.cpp:350-360 | what insert_ writes is inside the array if and only if the node is on the heap already or the array is not full |
| `SndUList.FullHeap` | UDT4/src/queue.cpp:282-304 | a heap of 4096 sockets and one more that wants to send: update would write behind the array |
| `SndUList.RemovalBreaks` | UDT4/src/queue.cpp:394-429 | a heap that is out of order once a node is removed |
| `SndUList.BreakStays` | UDT4/src/queue.cpp:282-304 | putting the node back, as update does, does not mend it |
| `Md5.Md5.Append` | UDT4/src/md5.cpp:322-358 | the state stays a function of all bytes appended |
| `Md5.Md5.Finish` | UDT4/src/md5.cpp:360-381 | the digest is that of the message padded as RFC 1321, sections 3.1 and 3.2, ask, its bytes those of the registers in order |
| `Md5.SameState` | UDT4/src/md5.cpp:322-358 | however the message was cut, bit count, registers and pending bytes are the same |
| `Md5.PaddedWhole` | UDT4/src/md5.cpp:373-377 | the padded message ends on a block |
| `Md5.CountUp` | UDT4/src/md5.cpp:335-338 | the two count words hold the number of bits modulo 2^64 |
| `Md5.LengthIs` | UDT4/src/md5.cpp:369-371 | the eight bytes appended are that count, least significant first |
| `Md5.DigestIs` | UDT4/src/md5.cpp:379-380 | the sixteen bytes read back, least significant first, as the four registers a, b, c, d |
| `Md5.InitIs` | UDT4/src/md5.cpp:312-320 | the registers begin as section 3.3 of RFC 1321 lists them byte by byte |
| `Md5.PaddedIs` | UDT4/src/md5.cpp:362-377 | the message, a byte 0x80, the fewest zeros that reach 56 modulo 64, and its length in bits read back modulo 2^64 |
| `PktTimeWindow.SortHalf` | UDT4/src/window.cpp:218-233 | the window is permuted so that one place more than half is sorted and nothing behind is smaller |
| `PktTimeWindow.PartIsSorted` | UDT4/src/window.cpp:218-236 | so both middle places hold what a full sort would put there |
| `PktTimeWindow.Median` | UDT4/src/window.cpp:236 | twice the median is the sum of the two middle intervals, rounded down to an even number |
| `PktTimeWindow.FilterIs` | UDT4/src/window.cpp:239-252 | the intervals averaged are all those strictly between an eighth and eight times the median |
| `PktTimeWindow.PktTimeWindow.GetPktRcvSpeed` | UDT4/src/window.cpp:215-259 | the filtered average lies strictly between an eighth and eight times the median and is positive; the result is 0 or a rate from 1 to 1000000 |
| `PktTimeWindow.PktTimeWindow.GetBandwidth` | UDT4/src/window.cpp:261-301 | the rate is that of the average of the median and the filtered intervals, rounded up; the average lies strictly between an eighth and eight times the median; there is no rate exactly when the median is 0 |
| `PktTimeWindow.PktTimeWindow.OnPktArrival` | UDT4/src/window.cpp:313-327 | the new interval replaces the one at the pointer |
| `PktTimeWindow.PktTimeWindow.Probe2Arrival` | UDT4/src/window.cpp:334-344 | the interval of a packet pair replaces the one at the pointer |
| `PktTimeWindow.ArrivalNewest` | UDT4/src/window.cpp:313-327 | with nothing sorted in between, the window comes to hold the last intervals, and keeps holding them |
| `PktTimeWindow.SortedNewest` | UDT4/src/window.cpp:215-233 | after a sort, the next arrival leaves the last intervals in the window if and only if the oldest has come to the place written next |
| `PktTimeWindow.OldestStays` | UDT4/src/window.cpp:215-233 | a window that loses the newer of its two intervals |
| `UdtfsCache.Client.Open` | udtfs/udtfs.cpp:102-113 | only one file is open; opening another changes nothing |
| `UdtfsCache.Strip` | udtfs/udtfs.cpp:104-107 | one leading slash of a path is dropped and nothing else |
| `UdtfsCache.Client.Release` | udtfs/udtfs.cpp:115-127 | closing the open file forgets its window; any other name changes nothing |
| `UdtfsCache.Client.Read` | udtfs/udtfs.cpp:133-172 | hit or miss, from inside the file exactly the bytes up to its end; from beyond it the size asked for, not 0; the window moves on a miss only |
| `UdtfsCache.SendSegment` | udtfs/common.cpp:601-630 | the server sends the file from the offset on and then zeros up to the length asked for |

## Left out

- Message lifetimes and drop requests (`UDT4/src/buffer.cpp:273-291`, `532-537`, `UDT4/src/core.cpp:2070-2085`, `2019-2030`): sender and receiver do not stay aligned there; messages have no lifetime here.
- Reading from and writing to files (`addBufferFromFile`, `readBufferToFile`, `sendfile`, `recvfile`).
- The handshake, rendezvous and the socket registry (`UDT4/src/api.cpp`): runs start with agreed initial numbers and window; the reply to a repeated handshake, which advertises another window, is not part of this model.
- Congestion control (`UDT4/src/ccc.cpp`): the congestion window is any number at any time.
- Timing: when timers fire is free; round trip estimates, pacing and probing intervals of `packData` are not computed.
- `UDT4/src/cache.cpp`, `CHash`, `CRcvUList`, `CRendezvousQueue`, the error tables: easy or independent of the transport.
- `CMsgNo`: its comparisons are not used by the transport.
- Physical buffers behind blocks and units (`m_pcData`) and allocation failures: a block or unit holds its bytes.
- The payload of a unit is set by whoever received the packet before `addData` gets it; the receive thread itself is not part of this model.
- Endpoints.MessagesReach: messages older than half the number space are left out; the code cannot tell them from new ones.
- Endpoints.ReceiverReady: asks that the number the peer has confirmed be within the sequence window; `GoesMute` is a run in which it is not.
- Connection.Connection.ToSender: asks the same of the numbers in the message on the wire.
- Connection.Connection.DataToReceiver: the same.
- Connection.Connection.Ack2ToReceiver: the same, and of the number confirmed.
- Connection.Connection.Full: the same of the number confirmed.
- Connection.Connection.constructor: the sizes are those for which both loss lists are large enough; for others a list can outgrow its array, as `ProtocolLimits` shows.
- Connection.Connection.Send: in message mode asks for fewer than 2^29 messages on the connection.
- SndBuffer.SndBuffer.AddBuffer: time stamp and lifetime of a block are left out.
- SndBuffer.SndBuffer.ReadAt: no message expires.
- SenderEnd.SenderEnd.PackFinish: so no drop request is sent.
- SenderEnd.SenderEnd.Send: the wait for room is over when the method begins; it does not end in a broken connection.
- SenderEnd.SenderEnd.SendMsg: the same.
- RcvLossList.RcvLossList.RemoveRange: the straight range that ends at 0x7FFFFFFF is left out, as the loop does not end.
- SenderEnd.SenderEnd.OnLiteAck: asks that the number be within the sequence window, as `MessagesReach` shows of recent messages.
- SenderEnd.SenderEnd.OnFullAck: the same.
- ReceiverEnd.ReceiverEnd.OnData: the same.
- ReceiverEnd.ReceiverEnd.OnAck2: the same of the number confirmed.
- ReceiverEnd.ReceiverEnd.constructor: the buffer has at most two slots more than the loss list; `FlightSize` shows that a larger one can make the list outgrow its array.
- SndUList.SndUList.InsertNode: a new node while the array is full is left out, as the write is behind the array.
- SndUList.SndUList.Update: the same.
- Session.Run: takes fewer than 0x3FFFFFFE events; `Session.Turn` goes on from there as long as nothing under way is older than the sequence window.
- MessageProgress.AllCanBeReturned: units for the packets that arrive are taken to be there.
- SenderEnd.SenderEnd.OnNak: words that do not code a list of intervals are left out; the source reads past their end.
- SndUList.SndUList.Pop: what `packData` answers is a parameter.
- Md5.Md5.Append: the block function `md5_process` is any function; its round constants are not part of this model.
- PktTimeWindow.PktTimeWindow.GetPktRcvSpeed: intervals are unbounded integers, so sums and shifts do not overflow; the rate is rounded up exactly instead of in floating point.
- PktTimeWindow.PktTimeWindow.GetBandwidth: the same; an infinite quotient is no rate.
- UdtfsCache.Client.Read: reads that are still larger than the cache once cut at the end of the file are left out; the source copies past its cache there.
- UdtfsCache.Client.Open: file names are not cut to the length of the name buffer.
- Writing, truncating and renaming in the file system client, which do not go through the cache.
