# A verified model of the ZBOSS stack core

ZBOSS is a cooperative ZigBee 2007 stack: one global state that callbacks change, run by a scheduler
loop. This project models six of its coupled components in Dafny and proves what they keep over whole
runs: the timer queue and the callback scheduler, APS acknowledged delivery with its frame headers and
group delivery, the address translation table, the binding store, the packet buffer pool with the payload
window of each buffer, and the duplicate filter.

Code that changes state in place is a class whose methods follow the source statement by statement (the
timer queue and the buffer waiters are real linked lists over a fixed pool; the address, binding and
retransmit tables are arrays). Each method is tied to a specification: either the new abstract contents
directly, or one step of a state machine over values, and the run-wide results are lemmas about that
machine. Time is an unbounded tick count of which the code sees only 16 bits.

Configuration: `ZB_LIMITED_FEATURES*` and `APS_FRAME_SECURITY` off, not 8051, simulator build (no
transceiver interrupt interrupts the scheduler loops).

`dafny verify dfyconfig.toml` checks the whole project.

| file | models |
|---|---|
| `types.dfy` | octets, 16-bit words, sequence vocabulary |
| `clock_time.dfy` | include/zb_time.h |
| `alarm_spec.dfy`, `alarm_queue.dfy` | common/zb_scheduler.c (alarms), include/zb_list_macros.h |
| `callback_queue.dfy` | include/zb_ringbuffer.h, common/zb_scheduler.c (immediate callbacks) |
| `aps_fc.dfy`, `aps_frame.dfy` | include/zb_aps.h, header build and parse in aps/aps_main.c |
| `retrans_spec.dfy`, `retrans_proof.dfy`, `retrans_answers.dfy`, `retransmitter.dfy` | acknowledged delivery in aps/aps_main.c |
| `group_delivery.dfy` | group delivery in aps/aps_main.c, group table in aps/aps_bind.c |
| `address_index.dfy`, `address_table.dfy`, `address_ops.dfy`, `address_answers.dfy`, `ieee_compression.dfy` | common/zb_address.c |
| `duplicate_filter.dfy` | aps/aps_dups.c |
| `binding_table.dfy` | aps/aps_bind.c |
| `buffer_pool.dfy`, `packet_buffer.dfy` | common/zb_bufpool.c |

## Where the code does not keep its promise

The model does what the code does. Where a promised property is false of it, the exact condition under
which it holds is proved, together with an input, or a run from the initial state, that breaks it.

- A data frame that finds only the last retransmit slot free is refused but stays in the slot, with no
  alarm to end it, and one that finds no slot is accepted and starts a second alarm on slot 0
  (aps/aps_main.c:1017): `SendDataExact`, `LastSlotLeaks`, `FullTableDoubleAlarm`, `FullTableReachable`.
- A second ACK before the NWK confirm gives away a buffer that NWK still holds, and an ACK from 0xffff
  that hits an empty slot one that does not exist (aps/aps_main.c:1054-1063): `PeerAckExact`,
  `RepeatedAckBreaks`, `RepeatedAckReachable`, `EmptySlotAcked`.
- A slot ended by an ACK is freed or confirmed by the format of the ACK, not of the frame
  (aps/aps_main.c:1062, 1077-1086): `OutcomesExact`, `WrongFormatReachable`.
- Removing an entry from the short-address index moves one octet too many and can drop the last entry
  (common/zb_address.c:711): `DelIndexExact`, `TwoRemovals`, `UpdateComplete`, `RemovalLosesEntry`,
  `LossReachable`.
- So an update can succeed with an entry that its short address does not find: the deletion of the other
  entry drops it, and since its short address does not change it is not listed again
  (common/zb_address.c:391-402, 423-431): `UpdateFinds`, `UnlistedReachable`.
- `zb_address_update` with short address 0xffff lists an entry under an address that stands for unknown
  (common/zb_address.c:423-431): `Update`, `SpoiledReachable`.
- The code zero stands for "no IEEE address" and, once sixteen manufacturers are known, for an address:
  looking that one up finds an entry that never had an IEEE address, and an update takes that entry away
  from its device (common/zb_address.c:288-294, 413-431, 655-662): `LookupDecidesAddress`,
  `ZeroCodeReachable`, `UpdateAddress`, `StolenEntry`.
- Packets from 0xffff, never recognised as repetitions, fill an address entry each, until no new source can be
  recorded (aps/aps_dups.c:75-95): `CheckDups`, `Flood`.
- An address entry that is deleted, dropped from the index or given another short address while its
  duplicate clock runs makes the duplicate filter judge other sources' packets, or forget its own
  (common/zb_address.c:419-431, 653-675, 685-690): `DeleteEntry`, `UpdateAddress`, `DeletionMisjudges`,
  `LossMisjudges`, `MoveMisjudges`, `ReusedEntry`, `MovedEntry`.
- Deleting an address entry that is not in use makes the element count wrong (common/zb_address.c:685-690):
  `Delete`.
- Unbinding from an empty table whose first row still shows the source succeeds and leaves the tables with
  a row count of 255 (aps/aps_bind.c:66-75, 190-238): `Unbind`, `UnbindAgain`, `StaleReachable`.
- Building the header of a long group frame near the front of its buffer overwrites the request before it
  is read (aps/aps_main.c:429-452): `WrittenHdrExact`, `ReqOverrun`.
- Growing a payload to the right checks its size but not its place (common/zb_bufpool.c:295):
  `AllocRight`, `AllocRightOverrun`.
- Freeing a free buffer is noticed only while no other of its class is outstanding
  (common/zb_bufpool.c:211-222): `PutTwice`.
- The clock comparison is right for differences from -32769 to 32766 ticks, not for the half range that
  the header documents (include/zb_time.h:118-130): `TimeGeExact`, `OrderLostOutOfRange`.

## Model

| member | source | states |
|---|---|---|
| `ClockTime.AddWraps` | include/zb_time.h:116 | adding on wrapped values is adding on tick counts |
| `ClockTime.TimeGeExact` | include/zb_time.h:118-130 | within one turn, the wrapped comparison agrees with the order of the tick counts if and only if their difference is in -32769..32766 |
| `ClockTime.TimeSubtractExact` | include/zb_time.h:89-105 | the wrapped distance is the true one if and only if the difference is in -32769..32766 or is 32768 |
| `AlarmSpec.ScanSplits` | common/zb_scheduler.c:305-310 | on a sorted queue in range, the scan passes exactly the alarms that are not later than the new one |
| `AlarmSpec.InsertSorted` | common/zb_scheduler.c:296-332 | insertion keeps the queue sorted by unwrapped run time while the compared times are less than half the range apart |
| `AlarmSpec.InsertKeeps` | common/zb_scheduler.c:296-332 | insertion adds the alarm and loses none, in or out of range |
| `AlarmSpec.PlaceExact` | common/zb_scheduler.c:296-332 | in range, a new alarm goes before the head if it is not later, else behind exactly the alarms that are not later than itself |
| `AlarmSpec.ScheduleAnswers` | common/zb_scheduler.c:280-290 | with a free entry the queue gets one more alarm, with the caller's function and parameter, due the given time from now |
| `AlarmSpec.ScheduleOverflows` | common/zb_scheduler.c:357-360 | scheduling changes nothing if and only if no entry is free |
| `AlarmSpec.CancelOneTakes` | common/zb_scheduler.c:371-387 | without the "all" marker a cancel takes exactly the earliest match and leaves the rest in place; nothing without a match |
| `AlarmSpec.CancelAllTakes` | common/zb_scheduler.c:371-387 | with the "all" marker a cancel takes every alarm of the function and keeps the others in order |
| `AlarmSpec.CancelTakesMeant` | common/zb_scheduler.c:371-387 | a cancel with a parameter takes the first alarm of the function with that parameter, with 255 the first of the function, and nothing if there is none |
| `AlarmSpec.CancelTakesOnly` | common/zb_scheduler.c:374 | no cancel takes an alarm of another function, nor, with a parameter, one with another parameter |
| `AlarmSpec.CancelAnswers` | common/zb_scheduler.c:371-387 | as a step of the machine: the others stay in order and the entry is free again |
| `AlarmSpec.CancelSplits` | common/zb_scheduler.c:371-387 | what is taken and what is left together are the queue |
| `AlarmSpec.TurnAnswers` | common/zb_scheduler.c:132-154 | in range, a turn begins if and only if the head's run time is not after the sampled time; it starts the head and frees its entry |
| `AlarmSpec.StepConserves` | common/zb_scheduler.c:129-160 | every schedule, cancel, start and end keeps entry count and alarms: accepted = started + cancelled + queued |
| `AlarmSpec.StepOrders` | common/zb_scheduler.c:129-160 | in range, every step keeps the queue sorted and starts alarms in non-decreasing run time and never early |
| `AlarmSpec.EveryRun` | common/zb_scheduler.c:129-390 | both hold in every state of every run, the second for runs whose comparisons stay in range |
| `AlarmSpec.EveryRunFromStart` | common/zb_scheduler.c:129-390 | the same from the initial state |
| `AlarmSpec.OrderLostOutOfRange` | common/zb_scheduler.c:296-302 | out of range the order is really lost |
| `AlarmSpec.DrainRuns` | common/zb_scheduler.c:129-154 | the alarm loop, with any callbacks that schedule and cancel meanwhile, performs only enabled steps and ends with no due head |
| `AlarmSpec.DrainLeavesNoneDue` | common/zb_scheduler.c:129-154 | after the loop, in range, no queued alarm was due at the sampled time |
| `AlarmQueue.AlarmLists.constructor` | common/zb_scheduler_init.c:58-64 | the queue is empty and all entries of the pool are on the freelist |
| `AlarmQueue.AlarmLists.InsertHead` | include/zb_list_macros.h:180-199 | pointer insertion keeps the doubly linked list whose head's back pointer is the tail, and prepends the entry |
| `AlarmQueue.AlarmLists.InsertTail` | include/zb_list_macros.h:200-220 | the same, appending the entry |
| `AlarmQueue.AlarmLists.InsertAfter` | include/zb_list_macros.h:221-243 | the same, inserting behind a given entry, also the tail |
| `AlarmQueue.AlarmLists.CutHead` | include/zb_list_macros.h:161-179 | the list without its head, still well formed |
| `AlarmQueue.AlarmLists.Remove` | include/zb_list_macros.h:290-330 | the list without an inner, first, last or only entry, still well formed |
| `AlarmQueue.AlarmLists.FreePush` | include/zb_list_macros.h:480-487 | the freelist is a stack: push |
| `AlarmQueue.AlarmLists.FreePop` | include/zb_list_macros.h:488-501 | the freelist is a stack: pop, null if and only if it is empty |
| `AlarmQueue.AlarmLists.InsertByTime` | common/zb_scheduler.c:296-332 | the pointer walk inserts at the place the specification names, and the queue then holds `Insert` of the alarms |
| `AlarmQueue.AlarmLists.CancelMatching` | common/zb_scheduler.c:364-390 | the pointer walk removes exactly the alarms the specification names and returns their entries to the freelist |
| `AlarmQueue.AlarmScheduler.PoolPartitioned` | common/zb_scheduler.c:273-390 | queue, freelist and at most one running entry partition the entry array |
| `AlarmQueue.AlarmScheduler.ScheduleAlarm` | common/zb_scheduler.c:273-361 | one schedule step of the machine; it overflows if and only if no entry is free |
| `AlarmQueue.AlarmScheduler.CancelAlarm` | common/zb_scheduler.c:364-390 | one cancel step; found if and only if something matches |
| `AlarmQueue.AlarmScheduler.RunHead` | common/zb_scheduler.c:143-152 | one turn: the entry is off both lists while its callback changes the queue, and free afterwards |
| `AlarmQueue.AlarmScheduler.RunDueAlarms` | common/zb_scheduler.c:129-154 | the loop is the run `Drain` from the sampled state, so every result about runs holds of it |
| `CallbackQueue.RingBuffer.Put` | include/zb_ringbuffer.h:130-155 | appends to the queue across the index wrap and does not touch the head's place |
| `CallbackQueue.RingBuffer.Peek` | include/zb_ringbuffer.h:157-162 | the oldest element, none if and only if the queue is empty |
| `CallbackQueue.RingBuffer.FlushGet` | include/zb_ringbuffer.h:184-192 | drops exactly the oldest element across the index wrap |
| `CallbackQueue.WindowPut` | include/zb_ringbuffer.h:130-155 | writing behind a window of the ring extends it, also over the end |
| `CallbackQueue.WindowGet` | include/zb_ringbuffer.h:184-192 | moving the start drops the oldest element |
| `CallbackQueue.CallbackScheduler.ScheduleCallback` | common/zb_scheduler.c:243-263 | accepted if and only if there is room, and then last; the head, running or not, keeps its place |
| `CallbackQueue.CallbackScheduler.RunCallbacks` | common/zb_scheduler.c:100-126 | for any callbacks that schedule others: everything accepted is executed once, in order of acceptance, and the queue ends empty |
| `CallbackQueue.AfterCallStep` | common/zb_scheduler.c:243-263 | what a running callback schedules is queued last, one by one, while fewer than sixteen are queued |
| `CallbackQueue.ExecutedInOrder` | common/zb_scheduler.c:100-126 | while everything fits, the queued callbacks are executed first and then what they scheduled, in the order of scheduling |
| `RetransProof.SendDataExact` | aps/aps_main.c:256-309 | a data send keeps the delivery invariant if and only if a slot below the last one is free |
| `RetransProof.SendCommandKeeps` | aps/aps_main.c:809-889 | a command send always keeps it, with a full table and for broadcasts too |
| `RetransProof.NwkConfirmKeeps` | aps/aps_main.c:495-562 | every NWK confirm keeps it |
| `RetransProof.PeerAckExact` | aps/aps_main.c:1026-1071 | an ACK keeps it if and only if the slot it hits is neither empty nor acknowledged before |
| `RetransProof.AckTimerKeeps` | aps/aps_main.c:1094-1144 | every timer expiry keeps it |
| `RetransProof.StepExact` | aps/aps_main.c:495-562 | any event keeps it if and only if its guard holds: each live slot has one pending alarm, an unconfirmed one one NWK request and a confirmed one none, buffers of live slots differ, each buffer was handed back once or is held once |
| `RetransProof.EveryRun` | aps/aps_main.c:974-1144 | a run of interleaved sends, confirms, ACKs and expiries keeps it in all states if and only if every event meets its guard |
| `RetransProof.EveryRunFromStart` | aps/aps_main.c:974-1144 | the same for every run from the initial state |
| `RetransProof.RetriesBounded` | aps/aps_main.c:1102-1135 | an expiry ends a slot, with RET_NO_ACK and the buffer handed back, if and only if it finds it confirmed and is at least the third |
| `RetransProof.NeverMoreThanThree` | aps/aps_main.c:1001-1007 | in every run from the start, also after a full table or a repeated ACK and when the owner sends again what it got back, no packet is passed to NWK more than three times |
| `RetransProof.OutcomesExact` | aps/aps_main.c:1074-1086 | data is confirmed and commands are freed if and only if the ACK's format agrees with the frame's |
| `RetransProof.WrongFormatReachable` | aps/aps_main.c:1074-1086 | a data frame answered in command format is freed instead of confirmed |
| `RetransProof.LastSlotLeaks` | aps/aps_main.c:1017-1021 | what goes wrong when only the last slot is free: the owner may send the buffer again while the slot holds it |
| `RetransProof.FullTableDoubleAlarm` | aps/aps_main.c:1015-1022 | what goes wrong when no slot is free |
| `RetransProof.FullTableReachable` | aps/aps_main.c:974-1022 | nine or ten commands from the initial state lead to those two failures |
| `RetransProof.RepeatedAckBreaks` | aps/aps_main.c:1054-1063 | any ACK repeated before the NWK confirm hands the buffer back, for the owner to send again, while NWK holds it |
| `RetransProof.RepeatedAckReachable` | aps/aps_main.c:1054-1063 | one command from the initial state leads there |
| `RetransProof.EmptySlotAcked` | aps/aps_main.c:1039-1063 | an ACK from 0xffff releases the buffer of an empty slot, in the initial state already |
| `RetransAnswers.SendDataAccepted` | aps/aps_main.c:256-309 | a data frame that finds a slot below the last one: what is in the slot, the counter of its header, one alarm, one pass to NWK |
| `RetransAnswers.SendCommandAccepted` | aps/aps_main.c:823-889 | the same for a command to a single device, in any free slot |
| `RetransAnswers.SendCommandUntracked` | aps/aps_main.c:823-889 | a command to many, or without a free slot, is sent and waits for nothing |
| `RetransAnswers.ConfirmNoted` | aps/aps_main.c:541-547 | the NWK confirm of a packet not acknowledged yet: the slot is confirmed and nothing else changes |
| `RetransAnswers.ConfirmEnds` | aps/aps_main.c:531-536 | the NWK confirm of a packet acknowledged meanwhile ends its slot with RET_OK and hands its buffer back once |
| `RetransAnswers.ConfirmReturns` | aps/aps_main.c:509-525 | the NWK confirm of any other frame hands its buffer back and touches no slot |
| `RetransAnswers.AckNoted` | aps/aps_main.c:1054-1058 | an ACK before the NWK confirm is noted |
| `RetransAnswers.AckEnds` | aps/aps_main.c:1059-1091 | an ACK after it ends the slot with RET_OK, stops its alarm and hands its buffer back once |
| `RetransAnswers.AckUnknown` | aps/aps_main.c:1065-1068 | an ACK that matches no slot changes nothing |
| `RetransAnswers.ExpiryRetransmits` | aps/aps_main.c:1116-1134 | a first or second expiry of a confirmed packet passes it to NWK once more and sets its alarm again |
| `RetransAnswers.ExpiryWaits` | aps/aps_main.c:1112-1116 | an expiry of a packet still with NWK passes nothing down and sets its alarm again |
| `RetransAnswers.ExpiryGivesUp` | aps/aps_main.c:1102-1108 | a third or later expiry of a confirmed packet ends it with RET_NO_ACK and hands its buffer back once |
| `RetransAnswers.PassesCounted` | aps/aps_main.c:1094-1134 | over every run of NWK confirms and expiries, a packet is passed down once for each first or second expiry that finds it confirmed |
| `RetransAnswers.ThreeTransmissions` | aps/aps_main.c:1001-1134 | a data frame confirmed by NWK each time and never acknowledged is passed down exactly three times, then given up, its buffer handed back once |
| `RetransAnswers.DataDelivered` | aps/aps_main.c:256-1091 | end to end: data sent, NWK confirm and the ACK the peer builds, in either order, confirm it with RET_OK once, unless an earlier slot waits for the same ACK |
| `RetransAnswers.CommandDelivered` | aps/aps_main.c:809-1091 | the same for a command, whose buffer is freed |
| `RetransAnswers.OwnAckReturned` | aps/aps_main.c:509-513 | an ACK of our own, sent and confirmed by NWK, gives its buffer back and touches no slot |
| `Retransmitter.RetransTable.SaveAckData` | aps/aps_main.c:974-1023 | fills the first free slot; reports full if and only if that is the last one |
| `Retransmitter.RetransTable.DataRequest` | aps/aps_main.c:256-309 | one acknowledged data send of the machine |
| `Retransmitter.RetransTable.CommandRequest` | aps/aps_main.c:809-889 | one command send of the machine |
| `Retransmitter.RetransTable.PlainRequest` | aps/aps_main.c:278-309 | a frame that waits for no ACK only visits NWK |
| `Retransmitter.RetransTable.NldeDataConfirm` | aps/aps_main.c:495-562 | one NWK confirm of the machine |
| `Retransmitter.RetransTable.AckFrameHandle` | aps/aps_main.c:1026-1071 | one ACK of the machine |
| `Retransmitter.RetransTable.DoneWithThisAck` | aps/aps_main.c:1074-1091 | the slot is emptied, its buffer handed back, one alarm of it cancelled |
| `Retransmitter.RetransTable.AckTimerCb` | aps/aps_main.c:1094-1144 | one timer expiry of the machine |
| `ApsFrame.DataRoundTrip` | aps/aps_main.c:690-746 | parsing a built data header recovers every field, and cutting the header the payload, for unicast and group frames |
| `ApsFrame.DataOnTheWire` | aps/aps_main.c:431-453 | the octets of a data header, in order, 16-bit fields low octet first |
| `ApsFrame.AckOnTheWire` | aps/aps_main.c:931-963 | the octets of an ACK behind the first, for both formats |
| `ApsFrame.AckHeader` | aps/aps_main.c:904-967 | the ACK of any frame, parsed by its receiver, is an ACK that asks for none, in the format of the frame's kind, with its counter, cluster, profile and swapped endpoints |
| `ApsFc.FcFields` | include/zb_aps.h:564-580 | where the fields of the frame-control octet are |
| `ApsFc.BuiltFields` | include/zb_aps.h:564-587 | the fields of the octets the stack builds for data, commands and ACKs |
| `ApsFrame.DataAckMatches` | aps/aps_main.c:1040-1045 | the ACK of a data frame, built and parsed, matches exactly the slots with its five fields |
| `ApsFrame.DataAckFindsEntry` | aps/aps_main.c:904-1049 | end to end on the retransmit machine: after a data send, the ACK the peer builds from the frame, parsed here, finds the slot just filled if and only if no earlier slot has the same address, counter, cluster and endpoints; for every counter value |
| `ApsFrame.CommandAckFindsEntry` | aps/aps_main.c:809-1049 | the same for commands, by address and counter |
| `ApsFrame.WrittenHdrExact` | aps/aps_main.c:429-454 | the header written carries the caller's request, whatever the buffer holds, if and only if the payload move does not run into the request |
| `ApsFrame.ReqOverrun` | aps/aps_main.c:429-454 | a buffer for which it does not, for every place and length outside the condition |
| `ApsFrame.FillDataHdr` | aps/aps_main.c:384-468 | the in-place writes prepend that header to the payload, and the counter is incremented modulo 256 |
| `ApsFrame.ParseHdr` | aps/aps_main.c:714-746 | the moving-pointer parser computes `Parse` of the octets from the payload on, past its end if the frame is too short |
| `ApsFrame.BuildAck` | aps/aps_main.c:904-963 | the buffer holds the ACK with swapped endpoints, eight or two octets |
| `ApsFrame.SendAndReceive` | aps/aps_main.c:384-492 | filling, parsing and cutting in one buffer recovers all fields and the payload |
| `GroupDelivery.EndpointsAt` | aps/aps_main.c:758-766 | the table search finds the one group with the address |
| `GroupDelivery.StepKeeps` | aps/aps_main.c:346-374 | every arrival, continuation and table growth keeps the delivery invariant: frames finish in acceptance order, each indicated once per endpoint in table order and freed once, and one continuation is on its way if and only if a frame is active |
| `GroupDelivery.EveryRun` | aps/aps_main.c:346-374 | so it holds in every state of every run, also when groups are added during delivery |
| `GroupDelivery.UnchangedTable` | aps/aps_main.c:750-805 | with the table unchanged, the indications are at every moment the delivery of the frames accepted first plus the part of the active one |
| `GroupDelivery.Drains` | aps/aps_main.c:750-805 | when no more arrive, a known number of continuations and no fewer delivers everything accepted and frees it |
| `GroupDelivery.ArrivalAnswers` | aps/aps_main.c:346-374 | a frame that arrives while fewer than eight wait is delivered behind those accepted before; one that finds eight is freed and never delivered |
| `GroupDelivery.DeliveredOnce` | aps/aps_main.c:758-795 | each endpoint of its group gets an accepted frame exactly once, no other endpoint gets it |
| `GroupDelivery.GroupLayer.PassUpGroupBuf` | aps/aps_main.c:346-374 | one arrival: dropped and freed when the queue is full, made active, or queued |
| `GroupDelivery.GroupLayer.PassGroupMsgUp` | aps/aps_main.c:750-805 | one continuation: next endpoint, next frame, or stop |
| `GroupDelivery.GroupLayer.AddGroupRequest` | aps/aps_bind.c:268-316 | adds the endpoint once, behind the others of its group and to no other group; TABLE_FULL if and only if it is new and its group or the table is full |
| `AddressIndex.DelIndexExact` | common/zb_address.c:698-716 | removal leaves a complete index if and only if the octet behind the live part does not make it drop the last entry |
| `AddressIndex.DelIndexSound` | common/zb_address.c:698-716 | what removal leaves is always sorted, without repetition, and without the removed entry |
| `AddressIndex.DelIndexLists` | common/zb_address.c:698-716 | exactly which entries stay listed |
| `AddressIndex.DelIndexLeaves` | common/zb_address.c:698-716 | the listed part a removal leaves, in order; the last entry goes too if and only if the octet behind the live part is the reference |
| `AddressIndex.DelIndexMisses` | common/zb_address.c:703-715 | removing a reference that is not listed changes nothing |
| `AddressIndex.TwoRemovals` | common/zb_address.c:393-431 | the same for the two removals of an update that resolves a conflict |
| `AddressIndex.AddIndexSound` | common/zb_address.c:725-758 | insertion at the bisected place keeps the index sorted |
| `AddressIndex.AddIndexComplete` | common/zb_address.c:725-758 | it completes the index if and only if the entry was the only one missing |
| `AddressIndex.IndexIsScan` | common/zb_address.c:567-606 | a complete index determines the entry of a short address |
| `AddressIndex.DelIndexSet` | common/zb_address.c:698-716 | the set of entries listed after a removal |
| `AddressIndex.FindIs` | common/zb_address.c:567-606 | a sound index lists at most one entry with a short address |
| `AddressIndex.RemovalLosesEntry` | common/zb_address.c:711 | two insertions into a zeroed index and one removal lose the other entry |
| `AddressTables.IeeeLookupDecides` | common/zb_address.c:537-554 | the full-cycle probe finds a used entry with the code if and only if there is one |
| `AddressTables.CycleOrder` | common/zb_address.c:643-644 | the cyclic order of table positions is the order of the step counts |
| `AddressTables.FindIsScan` | common/zb_address.c:567-606 | on a complete index, looking in the index and scanning the table are the same |
| `AddressTables.UsedUpdate` | common/zb_address.c:672-673 | the element count follows the used flags |
| `AddressTables.AddressTable.ShortSearch` | common/zb_address.c:567-606 | bisection finds the listed entry with the address, in every good table; with a complete index, exactly what a scan of the table finds |
| `AddressTables.AddressTable.IeeeSearch` | common/zb_address.c:537-554 | the loop computes the probe |
| `AddressTables.AddressTable.DelShortSorted` | common/zb_address.c:698-716 | the loop computes `DelIndex` of the index |
| `AddressTables.AddressTable.AddShortSorted` | common/zb_address.c:725-758 | the bisection finds the place of the short address, the move inserts there |
| `AddressTables.AddressTable.ClockTick` | common/zb_address.c:767-808 | clears the clock bit of the first used, unlocked entry in cyclic order from the hand if there is one, of no other; the hand stays within the table |
| `AddressTables.AddressTable.FindUnused` | common/zb_address.c:624-649 | the first unused entry in cyclic order from the hash, none if and only if the table is full |
| `AddressTables.AddressTable.AddrAdd` | common/zb_address.c:621-677 | fills that entry and lists exactly it in addition; elsewhere only the clock bit under the hand changes |
| `AddressTables.AddressTable.Delete` | common/zb_address.c:685-690 | only that entry becomes unused; the table stays good if and only if it was in use, the index complete if and only if the removal loses nothing |
| `AddressTables.AddressTable.Lock` | common/zb_address.c:500-511 | counts up to fifteen locks; fails, where the source stops, if and only if the count would overflow |
| `AddressTables.AddressTable.SetAddresses` | common/zb_address.c:419-432 | the entry takes both addresses and moves in the index, with exactly these entries listed after; good if and only if a known address is not replaced by the unknown one |
| `AddressOps.ByShort` | common/zb_address.c:354-372 | in every good table: touches the listed entry with the address, or fills the first unused one, or reports not found or overflow, each exactly when it should, and locks if asked; keeps both indexes |
| `AddressOps.ByIeee` | common/zb_address.c:325-351 | the same for the IEEE code |
| `AddressAnswers.LookupFails` | common/zb_address.c:325-372 | when a lookup finds nothing, finds no room or cannot lock; the first two change nothing |
| `AddressAnswers.LookupTouches` | common/zb_address.c:333-350 | a lookup that finds an entry answers it, sets its clock bit, locks it once if asked, and changes no other |
| `AddressAnswers.LookupCreates` | common/zb_address.c:621-677 | a lookup that creates takes the first unused entry counted cyclically from the hash, for exactly the addresses given |
| `AddressAnswers.CreatedIsFound` | common/zb_address.c:354-372 | the short address then finds that entry, and every other short address what it found before |
| `AddressOps.Update` | common/zb_address.c:375-450 | in every good table and for every short address: which entry survives, which one is deleted, what is listed afterwards, and which answer; good afterwards if and only if 0xffff does not replace a known address; a complete index stays complete if and only if no removal loses an entry |
| `AddressAnswers.UpdateFails` | common/zb_address.c:387-447 | conflict if and only if both addresses are found, in different entries that are both locked; overflow if and only if neither is found and the table is full; both change nothing |
| `AddressAnswers.ShortGivesWay` | common/zb_address.c:391-399 | both found in different entries, the one with the short address unlocked: that one is deleted and unlisted, the other takes both addresses |
| `AddressAnswers.CodeGivesWay` | common/zb_address.c:400-403 | the one with the short address locked, the other not: the other is deleted and unlisted |
| `AddressAnswers.OneFound` | common/zb_address.c:413-433 | one entry found, by one address or by both: it takes both addresses and no entry is deleted |
| `AddressAnswers.NoneFound` | common/zb_address.c:434-437 | none found: an unused entry is filled with both addresses |
| `AddressOps.UpdateMeans` | common/zb_address.c:375-450 | on success one entry has both addresses; the IEEE address finds it, the short address if and only if the update does not leave it out of the index; at most one other entry was deleted, an unlocked one; the rest is unchanged |
| `AddressOps.UpdateFinds` | common/zb_address.c:389-433 | in every good table, the short address finds the updated entry if and only if the entry was not already there unlisted, or dropped by the deletion of the other one |
| `AddressOps.UnlistedReachable` | common/zb_address.c:391-431 | two sources, a name for the first and its move to the second's address, from a fresh table: the update succeeds and the address is not found |
| `AddressOps.LossReachable` | common/zb_address.c:711 | two sources and one deletion, from a fresh table: the other source is not found |
| `AddressOps.UpdateComplete` | common/zb_address.c:389-433 | the exact condition for the index to stay complete, over all cases |
| `AddressOps.TakeFree` | common/zb_address.c:413-431 | the entry found can take both addresses without a clash in either index |
| `AddressOps.ReplaceFree` | common/zb_address.c:391-402 | so can the entry that survives a disagreement |
| `AddressOps.SpoiledReachable` | common/zb_address.c:423-431 | an update with short address 1 and one with 0xffff spoil the table |
| `IeeeCompression.Compressor.Compress` | common/zb_address.c:261-301 | fails if and only if the manufacturer is new and the table full; every code ever issued still decompresses to its address |
| `IeeeCompression.Compressor.CodesInjective` | common/zb_address.c:261-307 | issued codes are equal if and only if their addresses are |
| `IeeeCompression.AddressBook.LookupDecidesAddress` | common/zb_address.c:537-554 | the probe for an address finds an entry if and only if some entry was given that address, exactly unless the code is zero, no entry was given it, and some entry was given none |
| `IeeeCompression.AddressBook.ByShortAddress` | common/zb_address.c:354-372 | keeps the record of which entry was given which address |
| `IeeeCompression.AddressBook.ByIeeeAddress` | common/zb_address.c:325-351 | keeps it; without creation, finds an entry if and only if the address is a member, or its code is zero and an entry has none |
| `IeeeCompression.AddressBook.UpdateAddress` | common/zb_address.c:375-450 | keeps it unless the update spoils the table; the address is a member afterwards; the entry taken belonged to another device if and only if the code is zero and that entry has no IEEE address |
| `IeeeCompression.AddressBook.DeleteAddress` | common/zb_address.c:685-690 | keeps it if and only if the entry was in use |
| `IeeeCompression.AddressBook.ZeroCodeReachable` | common/zb_address.c:288-294 | sixteen manufacturers and one entry without IEEE address: a stranger is found |
| `IeeeCompression.AddressBook.StolenEntry` | common/zb_address.c:413-431 | the same stranger, made known with a short address, takes over the entry of source 1 |
| `DuplicateFilter.PacketAgrees` | aps/aps_dups.c:75-95 | stamping the source's entry keeps table and packet history in agreement |
| `DuplicateFilter.TickAgrees` | aps/aps_dups.c:119-132 | ageing keeps them in agreement |
| `DuplicateFilter.LookupAgrees` | common/zb_address.c:325-372 | lookups of other components, creating entries or not, keep them in agreement |
| `DuplicateFilter.DeleteAgrees` | common/zb_address.c:685-690 | a deletion keeps them in agreement if and only if neither the entry nor one dropped with it has a running clock |
| `DuplicateFilter.MoveAgrees` | common/zb_address.c:419-431 | a change of short address, likewise |
| `DuplicateFilter.UpdateAgrees` | common/zb_address.c:375-450 | an update keeps them in agreement if and only if every entry it deletes, drops or readdresses has a stopped clock |
| `DuplicateFilter.AgreementJudges` | aps/aps_dups.c:75-95 | in agreement, the verdict on every possible next packet is the right one |
| `DuplicateFilter.DuplicateMeans` | aps/aps_dups.c:80-95 | a packet is a duplicate if and only if the last one of its source has the same counter and at most two ticks followed it |
| `DuplicateFilter.DeletionMisjudges` | common/zb_address.c:685-690 | after the deletion of a listed running entry, in every state, a next packet that is misjudged |
| `DuplicateFilter.LossMisjudges` | common/zb_address.c:711 | after the loss of a running entry, its source's repetition is missed |
| `DuplicateFilter.MoveMisjudges` | common/zb_address.c:419-431 | after a running entry moved to another short address, that source's packet is taken for a repetition |
| `DuplicateFilter.Detector.CheckDups` | aps/aps_dups.c:65-106 | duplicate if and only if the previous recorded packet of the source had the same counter and fewer than three ticks have passed; recorded if and only if the source has an entry or room for one; one alarm pending if and only if the flag is set |
| `DuplicateFilter.Detector.AgeAll` | aps/aps_dups.c:119-132 | the scan ages exactly the used running clocks and stays inside the table |
| `DuplicateFilter.Detector.CheckTimerCb` | aps/aps_dups.c:113-139 | one tick of the history; the alarm is set again if and only if a clock still runs |
| `DuplicateFilter.Detector.Observe` | aps/aps_dups.c:75-95 | the verdict and the new table in every good state, with or without agreement |
| `DuplicateFilter.Detector.Flood` | aps/aps_dups.c:75-95 | packets from 0xffff are neither recorded nor reported and fill one entry each; enough of them leave no room for a new source |
| `DuplicateFilter.Detector.LookupShort` | common/zb_address.c:354-372 | the filter stays right under lookups by short address |
| `DuplicateFilter.Detector.LookupIeee` | common/zb_address.c:325-351 | and under lookups by IEEE address |
| `DuplicateFilter.Detector.DeleteEntry` | common/zb_address.c:685-690 | the filter stays right under a deletion if and only if the entry was in use and neither it nor one dropped with it has a running clock |
| `DuplicateFilter.Detector.UpdateAddress` | common/zb_address.c:375-450 | and under an update if and only if it does not spoil the table and leaves the running clocks alone |
| `DuplicateFilter.Detector.ReusedEntry` | common/zb_address.c:653-675 | a deletion, and a new source in the entry, made by the packet itself or before it: a false duplicate |
| `DuplicateFilter.Detector.MovedEntry` | common/zb_address.c:419-431 | a change of short address without any deletion: a false duplicate |
| `BindingTables.KeptLinks` | aps/aps_bind.c:190-217 | the compaction drops exactly the copies of the link and keeps the order |
| `BindingTables.RenumberedLinks` | aps/aps_bind.c:219-238 | removing an unreferenced source row and renumbering changes no link |
| `BindingTables.UnbindKeepsTables` | aps/aps_bind.c:187-239 | source rows stay distinct, indices in range, and no source row unreferenced |
| `BindingTables.WithoutParts` | aps/aps_bind.c:190-217 | what unbinding leaves of a list of links, fixed on single links and on lists joined |
| `BindingTables.WithoutAbsent` | aps/aps_bind.c:190-217 | it changes the list if and only if the link is in it |
| `BindingTables.DstAnswers` | aps/aps_bind.c:101-137 | which requests have a destination and which one it is; which status the others get |
| `BindingTables.BindingTable.FindSrcRef` | aps/aps_bind.c:63-77 | finds the row of the source, or a stale row 0 of an empty table |
| `BindingTables.BindingTable.Bind` | aps/aps_bind.c:79-149 | success appends one link, failure changes nothing; which status when |
| `BindingTables.BindingTable.Unbind` | aps/aps_bind.c:152-248 | success filters out all copies of the link, failure changes nothing, which status when; for a stale row in an empty table, the wrong answer and exactly when the code leaves the tables |
| `BindingTables.BindingTable.BindUnbind` | aps/aps_bind.c:79-248 | unbinding right after a successful bind of a new link restores the links |
| `BindingTables.BindingTable.UnbindAgain` | aps/aps_bind.c:152-248 | whenever an unbind removes the last link, repeating it leaves the tables |
| `BindingTables.BindingTable.DropRows` | aps/aps_bind.c:190-217 | the loop computes `Kept` of the rows and whether the source is still referenced; on an empty table it runs on row 0 and wraps the count if that matches |
| `BindingTables.BindingTable.DropSource` | aps/aps_bind.c:219-238 | the source row goes and the indices above it drop by one; on an empty table the count wraps |
| `BindingTables.BindingTable.StaleReachable` | aps/aps_bind.c:66-75 | one binding and two removals from a fresh table do so |
| `BufferPools.BufferPool.GetBuf` | common/zb_bufpool.c:110-141 | fails if and only if the class is at its own quota, whatever the other class holds; free and outstanding buffers always add up to the pool |
| `BufferPools.BufferPool.PutBuf` | common/zb_bufpool.c:211-223 | an outstanding buffer leaves its class and is the next to be handed out |
| `BufferPools.BufferPool.PutTwice` | common/zb_bufpool.c:211-223 | a free buffer freed again while its class is counted as outstanding spoils the pool, always |
| `BufferPools.BufferPool.BuffersPartitioned` | common/zb_bufpool.c:110-141 | each buffer is free or outstanding in exactly one class |
| `BufferPools.WaitList.InsertTail` | include/zb_list_macros.h:370-388 | the singly linked queue with tail pointer: append |
| `BufferPools.WaitList.CutHead` | include/zb_list_macros.h:403-421 | take the oldest, null if and only if empty |
| `BufferPools.WaitLists.EntriesPartitioned` | common/zb_bufpool.c:155-240 | waiter entries are partitioned between the freelist and the two queues |
| `BufferPools.BufferManager.GetBufDelayed` | common/zb_bufpool.c:155-189 | a free buffer goes to the callback at once, else it waits last in its class; refused if and only if neither is possible; callbacks wait only while their class is exhausted |
| `BufferPools.BufferManager.FreeBuf` | common/zb_bufpool.c:203-249 | the freed buffer itself goes to the longest-waiting callback of its class, unless the receiver needs an in-buffer; otherwise it becomes free |
| `PacketBuffers.PacketBuffer.InitialAlloc` | common/zb_bufpool.c:258-267 | a window of the given size in the middle |
| `PacketBuffers.PacketBuffer.AllocLeft` | common/zb_bufpool.c:277-290 | prepends room and keeps the payload behind it, moving it if needed, inside the buffer |
| `PacketBuffers.PacketBuffer.AllocRight` | common/zb_bufpool.c:292-299 | the window stays inside the buffer if and only if the octets fit behind it |
| `PacketBuffers.PacketBuffer.AllocRightOverrun` | common/zb_bufpool.c:292-299 | 100 octets and 47 more pass the check and run past the buffer |
| `PacketBuffers.PacketBuffer.CutLeft` | common/zb_bufpool.c:314-320 | drops a prefix of the payload |
| `PacketBuffers.PacketBuffer.CutRight` | common/zb_bufpool.c:324-328 | drops a suffix of the payload |
| `PacketBuffers.PacketBuffer.AssignParam` | common/zb_bufpool.c:301-312 | the parameter is at the end of the buffer, the payload is unchanged and out of its way |

## Left out

- Transceiver, SPI, UART and register code, and the MAC, NWK, ZDO and security layers: NWK send and
  confirm are events of the environment.
- APS security branches, `zb_aps_in_command_handle`, the APS information base requests, trace, init and
  debug code, code under `#if 0`, include/zb_pooled_list.h, single-bit vector macros, the 8051 timer.
- The selection of an addressing mode and of binding destinations in `zb_apsde_data_request`, the local
  copy of group frames for the sender (aps/aps_main.c:293-343), the queue of received frames that wait for
  an ACK buffer (aps/aps_main.c:603-639), and the NWK header in front of a received APS header.
- The start of the hardware timer (common/zb_scheduler.c:347-354, 161-165); only its interval macro is
  modelled.
- Overflow of the schedulers inside the protocol components: callers ignore it, and the models of
  acknowledged delivery, group delivery, buffer waiting and duplicate ageing take scheduling to succeed.
- That a waiting group continuation eventually gets an in-buffer: continuations are events.
- What a binding table does after it has left its arrays: `Unbind` ends there.
- The PAN id tables, `zb_address_unlock`, and the plain getters of common/zb_address.c.
- `ZB_ASSERT`: a stop is modelled as a failure result (`Compress`, `Lock`, a conflict in `Update`) or, for the
  size checks of the payload window, as a precondition.
- The overlay of `is_in_buf` and `next` in a free buffer: they are two fields, as the 32-bit and 8051
  layouts place them. The waiter freelist has an unused tail pointer in the model.
- `pass_up_q` is a bounded sequence in group delivery; that a ring buffer refines such a sequence is proved
  in `callback_queue.dfy`.
- ApsFrame.ParseHdr: a header that would be read past the end of the buffer array is not modelled, since
  what lies there is not known.
- AddressOps.ByShort: which other entry's clock bit a creation clears is said by `AddrAdd`, which it calls, and not
  repeated in `ByShort`, `ByIeee` and `Update`; nothing in this configuration reads a clock bit.
- BufferPools.BufferPool.PutBuf: frees of a buffer whose class count is zero stop at an assertion;
  `PutTwice` says what the others do.
- Unicast only in the retransmit machine: acknowledged group and broadcast data frames are not modelled.
- Callbacks are taken to terminate: the scheduler loops are proved for every finite script of what the
  callbacks do.
