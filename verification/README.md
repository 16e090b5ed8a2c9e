# winject protocol stack in Dafny

This project models five connected pieces of the ppWiFi / winject stack and proves what they keep over whole runs.

- **PDCP** (`PdcpSegment`, `PdcpSender`, `Reassembly`, `PdcpReceiver`, `PdcpLedger`, `PdcpLink`, `PdcpReplay`, `PdcpWindow`, `PdcpTransfer`, `PdcpUnsegmented`, `PdcpHomes`, `PdcpPlaces`, `PdcpSplit`, `PdcpInOrder`, `PdcpLate`): frames are cut into segments, packed into buffers, parsed, reassembled by offset and put back in order through a ring of slots with an overflow list. A ghost ledger records which segments were cut from which frame; the channel loses, repeats and reorders whole PDUs.
- **CRC and LLC frame** (`Bits`, `Crc`, `CrcPolynomial`, `CrcDetection`, `LlcFrame`): the table-driven CRC equals the remainder of polynomial division over GF(2), and the frame check built on it accepts what was sealed and rejects what was altered. The generator polynomial is that of clause 3.2.9 of IEEE Std 802.3; the initial value is 0 and nothing is complemented at the end, as in `winject/src/crc.hpp`.
- **LLC acknowledged mode** (`LlcConfig`, `LlcArq`, `LlcCalls`, `LlcUl`, `LlcRuns`, `LlcHistory`, `LlcReplay`): the sender object with its slot ring, SN ring, retransmission list, two redundant counters and status word refines one table from SNs to PDUs; what each call changes is proved of that table (`LlcCalls`), and over all runs from reset conservation, the emission bound, the check deadline, the numbering, one data PDU per slot, first-in-first-out retransmission and silence after an acknowledgement (`LlcRuns`, `LlcHistory`).
- **Message codec** (`Codec`, `CodecRoundTrip`, `CodecCtx`, `Rrc`): the encoder and decoder that the generator emits, for an arbitrary schema.
- **Scheduler** (`Schedule`, `ScheduleLaws`, `ScheduleSort`, `ScheduleEnds`, `TxScheduler`): one tick, for LLCs that answer in any way that respects the offered size.

Code that changes state is written as classes and loops (`PdcpUl`, `PdcpDl`, `LlcUl`, `PerCodecCtx`, `TxScheduler`, the CRC loops) and each method is proved equal to a specification function; the main results are lemmas about those functions.

Where the code and its comments differ, the model follows the code. The header of `pdcp_dl` says that `get_status` reports the last operation; `on_pdcp_data` only ever writes the status on an error, so `PdcpReceiver.PdcpDl.OnPdcpData` leaves it alone on success. A PDU that `write_retransmission_pdu` cannot place is nevertheless copied to the target (`Copied` in `LlcArq`).

Three things the code does not do, each with its input and its exact condition:

- The deficit rounds of a tick need not end. `quanta` is 0 unless configured (`winject/src/TxScheduler.hpp:331`), and an LLC without a scheduling configuration is added all the same (`winject/src/AppRRC.cpp:368-380`); one such LLC with something to send keeps the loop going for ever (`ScheduleEnds.Unconfigured`). `ScheduleEnds.EndsExactly` says when the rounds end for all LLCs.
- A frame all of whose pieces have arrived need not be handed out. A piece that comes while another frame holds its ring slot goes to the overflow list; once the slot is free the next piece of that frame starts a second reassembly in the ring, and each place has only its own pieces (`PdcpSplit.SplitInTwo`). A repeated piece can still complete one of them, and then the other stays behind although no piece came late (`PdcpSplit.RepeatDelivers`). For fewer than 65536 frames `PdcpPlaces.DeliversExactly` is exact, whatever arrives and however often: the output ends before the first frame of which neither place has been given all.
- The output need not be a prefix of what was queued. A late copy of a delivered frame stays stored and is handed out again when its SN comes round (`PdcpLate.LateCopyDelivered`, for every ring size). `PdcpLate.LinkPrefixExactly`: over all runs of the link with at most n frames the output is a prefix if and only if n is below 65536 (or nothing can be sent at all). Beyond that number `PdcpHomes.JoinedDelivery` and `PdcpWindow.WindowDelivery` give conditions on the arrivals that are enough.

The wrap-around of a charge (`TxScheduler.StaleCharge`) needs an LLC that claims data in the probe. The LLC that ships never does: with `in_allow_data` false it returns at `winject/src/LLC.cpp:280-287`, before the lines that set `out_has_data_loaded` (322, 362, 374), so `ScheduleLaws.UnclaimedCharges` applies to it.

`dafny verify dfyconfig.toml` checks everything.

## Model

| member | source | states |
|---|---|---|
| PdcpSegment.HeaderFields | winject/src/frames/basic_pdcp_segment.cpp:87-150 | the SIZE, L bit, SN and OFFSET read from a printed header are those of the segment, although SIZE and L share a word |
| PdcpSegment.PrintThenParse | winject/src/frames/basic_pdcp_segment.cpp:57-84 | parsing a printed segment followed by any octets gives that segment back and its SIZE ends it |
| PdcpSegment.View.SetLast | winject/src/frames/basic_pdcp_segment.cpp:125-135 | setting L in place sets the L bit, leaves SIZE as it reads back, and touches no other octet |
| PdcpSegment.View.SetPayloadSize | winject/src/frames/basic_pdcp_segment.cpp:156-167 | for every payload size: up to 15 bits SIZE reads back and L is kept, beyond that SIZE loses its upper bits and L may become set; the result says whether the segment fits |
| PdcpSender.FillPartitions | winject/src/pdcp/pdcp_ul.cpp:117-188 | the payloads written into one buffer are exactly the octets that leave the queue, in order |
| PdcpSender.WritesPartition | winject/src/pdcp/pdcp_ul.cpp:91-198 | over any sequence of calls with any buffer sizes the payloads partition the queued frames in FIFO order |
| PdcpSender.WriteProgress | winject/src/pdcp/pdcp_ul.cpp:91-198 | with segmentation a buffer larger than the header and at least min_commit_size always takes octets from a non-empty queue |
| PdcpSender.WritesDrain | winject/src/pdcp/pdcp_ul.cpp:91-198 | with segmentation and such buffers the queue is empty after as many calls as there are outstanding octets |
| PdcpSender.FillStops | winject/src/pdcp/pdcp_ul.cpp:117-156 | filling one buffer stops exactly when the queue is empty or what is left has no room behind a header or, without segmentation, less than all of the next frame needs; so with segmentation at most a header's size stays unused |
| PdcpSender.CutWhole | winject/src/pdcp/pdcp_ul.cpp:143-170 | a segment has its L bit set exactly if it takes all that is left of the front frame; otherwise it takes every octet of the buffer |
| PdcpSender.FillWhole | winject/src/pdcp/pdcp_ul.cpp:117-188 | every segment of a buffer but the last ends its frame; if the last does not, segmentation is on and the buffer is full to its last octet |
| PdcpSender.StatusMeaning | winject/src/pdcp/pdcp_ul.cpp:91-198 | when each status is reported, in terms of sizes and queue, min_commit_size included; on anything but success sender and buffer stay |
| PdcpSender.EmitHeader | winject/src/pdcp/pdcp_ul.cpp:158-174 | the header setters leave exactly the printed header, whatever the buffer held before |
| PdcpSender.EmitSizeWord | winject/src/pdcp/pdcp_ul.cpp:170-174 | writing the L bit and then SIZE leaves the word the printed header has, although both setters read and rewrite it |
| PdcpSender.PdcpUl.OnFrameData | winject/src/pdcp/pdcp_ul.cpp:53-65 | empty frames are refused, others queued; bytes in minus bytes out stays the outstanding size |
| PdcpSender.PdcpUl.GetOutstandingBytes | winject/src/pdcp/pdcp_ul.cpp:67-74 | the count equals the octets queued minus those already sent of the first frame |
| PdcpSender.PdcpUl.WritePdcp | winject/src/pdcp/pdcp_ul.cpp:91-198 | the buffer starts with the printed segments of the specification, is untouched past the returned count, and every status is the specified one; on success the queue is empty or no further segment fits behind what was written |
| Reassembly.AbsorbHolds | winject/src/pdcp/pdcp_dl.cpp:223-249 | taking in a piece, new or repeated, leaves the buffer holding exactly the octets of the pieces seen and the count of distinct octets exact |
| Reassembly.CompleteIff | winject/src/pdcp/pdcp_dl.cpp:223-249 | a state is complete if and only if the pieces seen cover the frame, and its buffer is then the frame |
| Reassembly.ReassemblyCorrect | winject/src/pdcp/pdcp_dl.cpp:223-249 | fed any arrangement with repetitions of the pieces cut from a frame, the state is complete exactly when every piece has been seen |
| Reassembly.AbsorbBuffer | cpp_dependencies/bfc/sized_buffer.hpp:66-91 | after the buffer has grown and a piece been written, each cell is the frame's octet if some piece seen covers it and still unset otherwise: growth keeps earlier octets |
| PdcpReceiver.PutLaws | winject/src/pdcp/pdcp_dl.cpp:99-134 | for the SN at hand ring and overflow list together behave as one cell: what is put is looked up, the last put wins, release forgets it |
| PdcpReceiver.HeldDecreases | winject/src/pdcp/pdcp_dl.cpp:136-166 | each delivery frees a slot or an overflow entry, so the flush loop ends |
| PdcpReceiver.Receiver.Flush | winject/src/pdcp/pdcp_dl.cpp:136-166 | after flushing no complete entry for the next expected SN is left in ring or overflow list |
| PdcpReceiver.ConsumePrinted | winject/src/pdcp/pdcp_dl.cpp:168-215 | parsing a printed PDU takes in exactly its segments, in order, and reports success |
| PdcpReceiver.RejectCauses | winject/src/pdcp/pdcp_dl.cpp:180-203 | which status rejects a segment, from its octets: too few for a header, SIZE beyond the input, or SIZE equal to the header size; none otherwise |
| PdcpReceiver.BadTail | winject/src/pdcp/pdcp_dl.cpp:168-288 | for all segments followed by anything that is rejected: the receiver has taken in exactly those segments, the status is that of the bad end, and with reordering nothing more is handed out |
| PdcpReceiver.DeliveredAfterBadTail | winject/src/pdcp/pdcp_dl.cpp:168-288 | the next accepted PDU then delivers exactly as if its segments and those had come in one PDU without the bad end |
| PdcpReceiver.ParseThenPrint | winject/src/frames/basic_pdcp_segment.cpp:57-150 | whatever is parsed prints back to the octets it was parsed from |
| PdcpReceiver.InputSplits | winject/src/pdcp/pdcp_dl.cpp:180-280 | every input is some printed segments followed by nothing or by a bad end, so the rows above speak of all inputs |
| PdcpReceiver.PdcpDl.GetOrPutSlot | winject/src/pdcp/pdcp_dl.cpp:99-122 | the ring slot is found or claimed exactly when the specification says the SN fits the ring |
| PdcpReceiver.PdcpDl.FindOverflow | winject/src/pdcp/pdcp_dl.cpp:124-134 | the first overflow entry for the SN, or none |
| PdcpReceiver.PdcpDl.FlushCompletedInOrder | winject/src/pdcp/pdcp_dl.cpp:136-166 | the loop computes Flush on the object's state |
| PdcpReceiver.PdcpDl.ParseSegments | winject/src/pdcp/pdcp_dl.cpp:180-280 | the parsing loop computes Consume and stops with the status of the first rejected segment |
| PdcpReceiver.PdcpDl.OnPdcpData | winject/src/pdcp/pdcp_dl.cpp:168-288 | the call computes OnData and writes the status only on an error; BadTail and DeliveredAfterBadTail say what OnData keeps then |
| PdcpReceiver.PdcpDl.Pop | winject/src/pdcp/pdcp_dl.cpp:72-91 | the oldest completed frame leaves, with the clamped byte count |
| PdcpLedger.CutStep | winject/src/pdcp/pdcp_ul.cpp:143-187 | cutting one more segment extends the ledger by one piece that overlaps no other, and frames are covered exactly when they have left the queue |
| PdcpLedger.TakeSafe | winject/src/pdcp/pdcp_dl.cpp:205-260 | a segment from the ledger, repeated or late, leaves every stored state holding pieces of the frame its SN denotes |
| PdcpLedger.FlushSafe | winject/src/pdcp/pdcp_dl.cpp:136-166 | flushing only ever appends the next frames, octet for octet |
| PdcpLedger.PopSafe | winject/src/pdcp/pdcp_dl.cpp:72-91 | popping keeps the byte count exact, so its clamp is never taken |
| PdcpLink.StepInv | winject/src/pdcp/pdcp_dl.cpp:136-288 | every queueing, writing, arrival of any earlier PDU and pop keeps sender, ledger and receiver consistent |
| PdcpLink.PrefixSafety | winject/src/pdcp/pdcp_dl.cpp:136-288 | over any run in which the channel loses, repeats and reorders PDUs, the frames handed out are a prefix of the frames queued, octet for octet and in order, and outstanding_bytes is exact |
| PdcpReplay.Replay | winject/src/pdcp/pdcp_dl.cpp:72-288 | a sender and a receiver object taken through any events of the link end in the state of the run over which StepInv and PrefixSafety are proved |
| PdcpLate.LateCopyDelivered | winject/src/pdcp/pdcp_dl.cpp:99-166 | 65536 frames and one late copy of the first: for every ring size, with or without segmentation, the receiver hands out that frame a second time, after all others |
| PdcpLate.PrefixExactly | winject/src/pdcp/pdcp_dl.cpp:99-166 | for every ring size: the output is a prefix of the frames for all arrivals of at most n whole frames if and only if n is below 65536 |
| PdcpLate.LinkPrefixExactly | winject/src/pdcp/pdcp_dl.cpp:136-288 | over all runs of the whole link with at most n queued frames the output is a prefix of them if and only if n is below 65536 or min_commit_size exceeds every buffer |
| PdcpWindow.ReceiveIsOnData | winject/src/pdcp/pdcp_dl.cpp:168-288 | receiving the pieces of a PDU is what on_pdcp_data does with the printed PDU |
| PdcpWindow.WindowDelivery | winject/src/pdcp/pdcp_dl.cpp:93-166 | with arrivals inside the window and a ring size dividing 65536, the output is exactly the frames before the first with a piece missing, across SN wraparound, and the overflow list stays empty |
| PdcpWindow.WindowLiveness | winject/src/pdcp/pdcp_dl.cpp:207-284 | once every piece has arrived at least once all frames are out, in order |
| PdcpTransfer.SentInPieces | winject/src/pdcp/pdcp_ul.cpp:91-198 | when the queue has been written out, over any calls, the segments written are exactly the pieces of a ledger that covers every frame without overlap |
| PdcpTransfer.TransferComplete | winject/src/pdcp/pdcp_dl.cpp:168-288 | if all of those pieces arrive within the window, in any order and with repetitions, the receiver has handed out every frame, in order, and nothing else |
| PdcpUnsegmented.DeliversArrivedPrefix | winject/src/pdcp/pdcp_dl.cpp:99-166 | for unsegmented frames at any distance and any ring size, zero included, the output is always the frames below the least one that has not arrived |
| PdcpHomes.JoinedDelivery | winject/src/pdcp/pdcp_dl.cpp:99-166 | for segmented frames, any ring size, any distance within one SN cycle and any number of frames across SN wraparound: as long as no arriving piece finds its slot free while earlier pieces of its frame wait in the overflow list, the output is exactly the frames before the first with a piece missing |
| PdcpPlaces.DeliversExactly | winject/src/pdcp/pdcp_dl.cpp:99-166 | fewer than 65536 frames, any ring size, any pieces in any order, packing and number of copies, late ones included: the output is exactly the frames before the first one of which neither the ring nor the overflow list has been given all |
| PdcpPlaces.DeliveredIff | winject/src/pdcp/pdcp_dl.cpp:99-166 | all frames are handed out if and only if the pieces of each that found room in the ring cover it, or those that did not |
| PdcpPlaces.NotedArrived | winject/src/pdcp/pdcp_dl.cpp:99-122 | the pieces noted for the two places are together exactly those that have arrived |
| PdcpPlaces.DeliveredOnce | winject/src/pdcp/pdcp_dl.cpp:99-166 | when every piece arrives exactly once, all frames are handed out if and only if no frame has pieces in both places |
| PdcpSplit.SplitInTwo | winject/src/pdcp/pdcp_dl.cpp:99-134 | two frames of two pieces, a ring of one slot and four PDUs that bring every piece once: afterwards only the first frame is out, and the second lies half in the slot and half in the overflow list |
| PdcpSplit.RepeatDelivers | winject/src/pdcp/pdcp_dl.cpp:99-166 | a fifth PDU that repeats a piece gets the second frame out; its other half is still in the overflow list, and no piece came late |
| PdcpInOrder.InOrderIdentity | winject/src/pdcp/pdcp_ul.cpp:117-188 | over a lossless in-order channel and for all four flag settings the output is exactly the frames that have been sent completely |
| Crc.TableStep | winject/src/crc.hpp:67-74 | one table look-up step equals feeding the eight bits of the octet to the bitwise division |
| Crc.FillEntry | winject/src/crc.hpp:35-50 | the inner loop computes the register after eight shifts of the index |
| Crc.BuildTable | winject/src/crc.hpp:32-51 | every entry of the table is the one the specification gives for its index |
| Crc.Compute | winject/src/crc.hpp:67-76 | the byte loop over the table computes the bit-by-bit value, for every octet string |
| CrcPolynomial.RemainderUnique | winject/src/crc.hpp:67-76 | a polynomial has only one remainder modulo the generator |
| CrcPolynomial.ValueIsRemainder | winject/src/crc.hpp:67-76 | the value is the remainder of the message times x to the width, modulo the generator over GF(2), for every message and generator |
| CrcDetection.WindowDetected | winject/src/crc.hpp:67-76 | equally long messages that differ only inside four consecutive octets have different values, for every generator with a non-zero constant term |
| LlcFrame.SetLaws | winject/src/frames/basic_llc.cpp:178-196 | writing a masked field changes that field, cut to its width, and no other field or octet |
| LlcFrame.SizeRoundTrip | winject/src/frames/basic_llc.cpp:109-124 | SIZE reads back as written if and only if it fits 11 bits |
| LlcFrame.SealedAccepted | winject/src/llc/llc_ul.cpp:309-323 | every PDU that is written passes the receiver's check |
| LlcFrame.VerdictOfPrefix | winject/src/LLC.cpp:474-503 | the receiver's verdict depends on the first SIZE octets only: octets behind a PDU never change it |
| LlcFrame.AcceptedFront | winject/src/AppRRC.cpp:541-552 | an accepted PDU is accepted in its first SIZE octets by themselves, which is what the receiver is handed, if SIZE covers the header |
| LlcFrame.SealOfPrefix | winject/src/llc/llc_ul.cpp:309-323 | sealing a PDU with octets behind it seals the PDU and leaves those octets, so the octets reported depend on nothing behind them |
| LlcFrame.AlterationRejected | winject/src/LLC.cpp:474-503 | an accepted PDU altered only within four consecutive octets of its payload, of its CRC field, or of the octets before it with SIZE as it was, fails the receiver's check |
| LlcFrame.SealInPlace | winject/src/llc/llc_ul.cpp:309-323 | setting the SN, clearing the CRC field, computing the CRC over SIZE octets and storing it in place gives the sealed PDU |
| LlcConfig.MaskTest | winject/src/llc/llc_ul.cpp:395-400 | masking tx_size with tx_size - 1 gives zero exactly for the powers of two |
| LlcConfig.Validate | winject/src/llc/llc_ul.cpp:380-425 | the invalid-configuration bit stays clear if and only if mode and CRC type are named values, the size is a power of two and the limits are ordered and positive |
| LlcArq.FirstFree | winject/src/llc/llc_ul.cpp:154-183 | the slot found is free and every earlier candidate is not; none is found only if all candidates are taken |
| LlcArq.RecheckBounds | winject/src/llc/llc_ul.cpp:149-152 | the recheck distance never decreases with the retry count, starts at the minimum, ends at the maximum |
| LlcArq.RecheckProportional | winject/src/llc/llc_ul.cpp:149-152 | beyond the minimum the distance is retry_count / max_retx_count of the way to the maximum, rounded down, for every retry count |
| LlcArq.TickInv | winject/src/llc/llc_ul.cpp:51-93 | a slot update keeps the invariant |
| LlcArq.OneDue | winject/src/llc/llc_ul.cpp:68-90 | at most one PDU is due at a slot, and the slot update moves that one to the end of the retransmission list |
| LlcArq.AckInv | winject/src/llc/llc_ul.cpp:105-147 | an acknowledgement, expected or spurious, keeps the invariant |
| LlcArq.RetransmitInv | winject/src/llc/llc_ul.cpp:195-258 | a retransmission, a loss or a failed attempt keeps the invariant |
| LlcArq.SubmitInv | winject/src/llc/llc_ul.cpp:282-344 | a new PDU, accepted or not, keeps the invariant |
| LlcCalls.PlaceIff | winject/src/llc/llc_ul.cpp:154-183 | a PDU finds a slot exactly when some ring position is free, and gets the first free one at or after its distance |
| LlcCalls.AckEffect | winject/src/llc/llc_ul.cpp:105-147 | acknowledge succeeds exactly for an SN in use, waiting or queued; the SN then leaves table and list, all other entries and their order stay, one more is acknowledged; any other SN changes only the status |
| LlcCalls.TickEffect | winject/src/llc/llc_ul.cpp:51-93 | only the next slot number is taken; the PDU due there goes to the end of the list, all others stay |
| LlcCalls.RetransmitSends | winject/src/llc/llc_ul.cpp:195-258 | the front PDU of the list is sent exactly when nothing has gone out in this slot, it fits, has retries left and some ring position is free; it waits then for the first free slot at its next distance |
| LlcCalls.RetransmitKeeps | winject/src/llc/llc_ul.cpp:195-258 | otherwise the front PDU is given up exactly if it fits and has no retries left, and else nothing but the status changes; a PDU that only lacks a slot is nevertheless copied to the target |
| LlcCalls.SubmitEffect | winject/src/llc/llc_ul.cpp:282-344 | when a PDU goes out, what it is sealed as, what is reported, the step of the SN counter and the entry of a data PDU; otherwise zero is reported and counter, table and log stay |
| LlcCalls.SubmitRefused | winject/src/llc/llc_ul.cpp:282-333 | the status bit for each reason, in the order of the checks, and that only a PDU without a slot has been sealed in its buffer |
| LlcUl.PendingIsOccupied | winject/src/llc/llc_ul.hpp:396-408 | pending count = used slots + list length = occupied SN entries, at most 256 |
| LlcUl.FreeSlotCount | winject/src/llc/llc_ul.cpp:95-98 | ring size minus busy count is the number of ring positions without a waiting PDU |
| LlcUl.LlcUl.Reset | winject/src/llc/llc_ul.cpp:37-49 | the fields are those of the empty table |
| LlcUl.LlcUl.GetFreeTxSlot | winject/src/llc/llc_ul.cpp:95-98 | the count is the number of ring positions at which no PDU waits |
| LlcUl.LlcUl.GetPendingLlcPduCount | winject/src/llc/llc_ul.cpp:100-103 | the count is accepted minus acknowledged minus lost |
| LlcUl.LlcUl.UpdateCurrentSlotNumber | winject/src/llc/llc_ul.cpp:51-93 | the three structures keep pointing at each other and the result is the table's; the branch for a missing SN entry is dead |
| LlcUl.LlcUl.Acknowledge | winject/src/llc/llc_ul.cpp:105-147 | the result is true exactly for an SN in use, which then leaves whichever structure holds it; the branches for a missing list element and an acknowledged slot are dead |
| LlcUl.LlcUl.FindFree | winject/src/llc/llc_ul.cpp:157-168 | the scan over tx_size consecutive slots succeeds exactly when some ring position is free |
| LlcUl.LlcUl.EnqueueTxCheck | winject/src/llc/llc_ul.cpp:154-183 | it succeeds exactly when some slot is free, takes the first free one at or after the recheck distance, and stores the PDU there |
| LlcUl.LlcUl.WriteRetransmissionPdu | winject/src/llc/llc_ul.cpp:195-258 | state, target contents and returned size are the table's Retransmit; the branch for a missing SN entry is dead |
| LlcUl.LlcUl.WriteLlcPdu | winject/src/llc/llc_ul.cpp:282-344 | state, target contents and returned size are the table's Submit; SIZE is reported and the SN counter steps exactly for a PDU that may go out |
| LlcRuns.Conservation | winject/src/llc/llc_ul.cpp:225-253 | in every reachable state accepted = acknowledged + lost + pending, at most 256 are pending, and STATUS_BIT_SHOULD_NOT_HAPPEN and STATUS_BIT_SPURIOUS_ACK_TX are clear |
| LlcRuns.Emissions | winject/src/llc/llc_ul.cpp:233-257 | each accepted PDU goes out at least once and at most 1 + max_retx_count times, always as the same buffer under the same SN, at distances that never decrease and stay within the limits, and passes the receiver's check, also in its first SIZE octets alone |
| LlcRuns.ReportedOctets | winject/src/llc/llc_ul.cpp:185-343 | of that buffer write_llc_pdu reports the first SIZE octets and write_retransmission_pdu all; the first SIZE octets are accepted by themselves |
| LlcRuns.LostAfterAllRetries | winject/src/llc/llc_ul.cpp:233-240 | a PDU is given up only after it has gone out exactly 1 + max_retx_count times |
| LlcRuns.CheckedInTime | winject/src/llc/llc_ul.cpp:58-90 | once the recorded slot is reached, or tx_size slot updates have happened, the PDU has been acknowledged or moved to the retransmission list |
| LlcHistory.SnCounts | winject/src/llc/llc_ul.cpp:325-341 | over any calls the SN counter is the number of new PDUs that went out, modulo 256; no other call moves it |
| LlcHistory.SlotsApart | winject/src/llc/llc_ul.cpp:61-66 | over any run from reset no two data PDUs, new or retransmitted, go out in the same slot, and STATUS_BIT_DATA_PDU_ALLOCATED says whether one did in the present one |
| LlcHistory.AcceptedIff | winject/src/llc/llc_ul.cpp:282-344 | after any run a data PDU is accepted if and only if none has gone out in this slot, the SN that counts the PDUs sent so far is not outstanding, SIZE lies within the buffer and some ring position is free |
| LlcHistory.AckEndsEmissions | winject/src/llc/llc_ul.cpp:105-147 | no emission of a PDU comes after its acknowledgement, whatever calls follow |
| LlcHistory.RunDone | winject/src/llc/llc_ul.cpp:195-258 | a PDU that was acknowledged or given up never goes out again and is never kept again |
| LlcHistory.FirstInFirstOut | winject/src/llc/llc_ul.cpp:195-258 | while the earlier of two queued PDUs has neither gone out nor been acknowledged or given up, the later one does not go out |
| LlcHistory.QueuedLater | winject/src/llc/llc_ul.cpp:68-90 | a PDU that joins the retransmission list later stands behind those that stay queued |
| LlcReplay.Replay | winject/src/llc/llc_ul.cpp:37-344 | a sender object taken through any calls ends standing for the run of the table over which the four results above are proved |
| Codec.OctetsRoundTrip | cpp_dependencies/cum/src/cum/cum.hpp:275-291 | a number stored in w octets comes back modulo 256 to the w |
| Codec.OctetAt | cpp_dependencies/cum/src/cum/cum.hpp:275-291 | octet k of a number is its k-th base-256 digit, the least significant first |
| Codec.WidthsLeast | cpp_dependencies/cum/src/cum/cum.hpp:15-23 | a count is as wide as its bound less one needs and a tag as wide as the number of alternatives, among 1, 2, 4 and 8 octets |
| Codec.SetOptionalLaws | cpp_dependencies/cum/src/cum/cum.hpp:475-487 | setting one optional bit sets that bit and no other |
| Codec.SetOptionalWeight | cpp_dependencies/cum/src/cum/cum.hpp:482-487 | entering optional j adds the weight 0x80 shifted right by j mod 8 to octet j / 8 |
| Codec.MaskTells | cpp_dependencies/cum/generate_cpp.py:136-156 | the mask built by the first pass says of each optional field, by its number, whether it is present |
| CodecRoundTrip.RoundTrip | cpp_dependencies/cum/generate_cpp.py:131-207 | for every schema, a value that fits is decoded from its encoding followed by any octets, leaving exactly those octets |
| CodecRoundTrip.DecodedFits | cpp_dependencies/cum/generate_cpp.py:176-207 | whatever is decoded is a value of the schema that fits |
| CodecRoundTrip.RoundTripIff | cpp_dependencies/cum/generate_cpp.py:131-296 | decoding inverts encoding if and only if the value fits: texts without NUL, counts below the capacity of the count octets |
| CodecRoundTrip.Unambiguous | cpp_dependencies/cum/generate_cpp.py:131-296 | no encoding starts another: octets determine the value and where it ends |
| CodecRoundTrip.OverfullVector | cpp_dependencies/cum/src/cum/cum.hpp:364-393 | a vector whose length is a multiple of that capacity comes back empty and its elements are left over |
| CodecRoundTrip.FullStaticArray | cpp_dependencies/cum/src/cum/cum.hpp:418-451 | 256 octets in a static array bounded by 256 do not survive the round trip |
| CodecCtx.PerCodecCtx.EncodeOctets | cpp_dependencies/cum/src/cum/cum.hpp:259-265 | octets are written at the cursor exactly if they fit, otherwise nothing changes |
| CodecCtx.PerCodecCtx.EncodePer | cpp_dependencies/cum/generate_cpp.py:131-174 | encoding succeeds exactly if the encoding fits what is left, writes exactly it at the cursor and nothing else; on failure nothing before the cursor has changed |
| CodecCtx.PerCodecCtx.BuildMask | cpp_dependencies/cum/generate_cpp.py:143-156 | the first pass with its counter builds the specified mask in place |
| CodecCtx.PerCodecCtx.DecodePer | cpp_dependencies/cum/generate_cpp.py:176-207 | decoding returns the specified value and leaves the cursor just behind it, or fails exactly when specified |
| CodecCtx.ReadsBack | cpp_dependencies/cum/src/cum/cum.hpp:229-257 | what the encoder wrote into a buffer is read back from the same place, ending where the encoder stopped, if and only if the value fits |
| Rrc.RrcRoundTrip | winject/interface/rrc.hpp:506-518 | every RRC message is decoded as it was encoded, whatever follows it |
| Rrc.RrcWritten | winject/interface/rrc.hpp:176-511 | the octets of every RRC message, one by one: field order, tag, mask of the optional field and byte order |
| Rrc.RrcUnambiguous | winject/interface/rrc.hpp:506-518 | RRC messages with the same octets are the same message |
| Schedule.Cache | winject/src/TxScheduler.hpp:208-245 | the cache lists exactly the attached LLCs that have something to send, once each |
| ScheduleLaws.ProbePayload | winject/src/TxScheduler.hpp:206-245 | the probe pass packs its allocations one after the other inside the payload |
| ScheduleLaws.ProbeEffect | winject/src/TxScheduler.hpp:208-245 | the probe asks every attached LLC exactly once, in order, offering what is left up to its limit, and notes its answer; one with something to send keeps its deficit, one without is cut to eight tenths, detached ones are untouched |
| ScheduleLaws.RoundsPayload | winject/src/TxScheduler.hpp:249-305 | the rounds pack their allocations one after the other inside what is left, never past it |
| ScheduleLaws.RoundOffers | winject/src/TxScheduler.hpp:251-298 | in every round that starts each schedulable LLC without data is offered space exactly once, largest deficit first, as much as is left or its deficit covers, and nobody else is |
| ScheduleLaws.RoundBound | winject/src/TxScheduler.hpp:249-305 | if every schedulable LLC without data has at least q quanta, a tick has at most payload / q + 1 rounds |
| ScheduleEnds.EndsExactly | winject/src/TxScheduler.hpp:249-305 | the number of rounds has a bound common to all LLCs and all sort results if and only if, after the probe, nothing is left, or every schedulable LLC without data has quanta, or one of them has deficit and quanta above what is left |
| ScheduleEnds.EndsBounded | winject/src/TxScheduler.hpp:249-305 | under that condition there is at most one round more than octets left |
| ScheduleEnds.Endless | winject/src/TxScheduler.hpp:249-305 | without it, whatever the LLCs answered in the probe, they can answer the rounds so that there are any number of them, none the last, and nothing is used up |
| ScheduleEnds.AttachedQuanta | winject/src/TxScheduler.hpp:208-305 | attached LLCs with at least q > 0 quanta meet the condition whatever they answer in the probe, and so the bound payload / q + 1; gaps and detached LLCs do not matter |
| ScheduleEnds.Unconfigured | winject/src/AppRRC.cpp:368-380 | one LLC without a scheduling configuration and with something to send: any number of rounds, none the last |
| ScheduleLaws.RoundsLoad | winject/src/TxScheduler.hpp:262-298 | in one tick an LLC loads data at most once and gets no offer after that |
| ScheduleLaws.RoundsCredit | winject/src/TxScheduler.hpp:251-254 | each schedulable LLC is credited its quanta once per round and nobody else's context changes |
| ScheduleLaws.Charging | winject/src/TxScheduler.hpp:307-314 | the new deficit is the old one plus rounds times quanta minus what was charged; the subtraction is exact except, and exactly then, for an LLC that claimed data in the probe with a stale allocation above its deficit and credits |
| ScheduleLaws.SmallClaim | winject/src/TxScheduler.hpp:229-313 | an LLC that claimed data in the probe is charged exactly if its stale allocation did not exceed its deficit after the probe |
| ScheduleLaws.UnclaimedCharges | winject/src/TxScheduler.hpp:206-314 | if no answer in the probe claims data, every charge of the tick is exact: what was allocated in the round in which the LLC loaded data, or nothing |
| TxScheduler.Sort | winject/src/TxScheduler.hpp:256-260 | the order is a permutation of the cache in descending order of operator> keys |
| TxScheduler.TxScheduler.Probe | winject/src/TxScheduler.hpp:206-245 | the pass computes Probed and collects the cache |
| TxScheduler.TxScheduler.Offers | winject/src/TxScheduler.hpp:262-298 | the inner loop computes Visit with its count and largest deficit |
| TxScheduler.TxScheduler.OneRound | winject/src/TxScheduler.hpp:251-304 | crediting, sorting and offering compute Round for an order that std::sort may leave, and tell whether it was the last |
| TxScheduler.TxScheduler.RunRounds | winject/src/TxScheduler.hpp:249-305 | whenever the LLCs at hand leave room for at most n rounds the loop ends within n, in the state after a sequence of rounds of which only the last met a reason to stop |
| TxScheduler.TxScheduler.Charge | winject/src/TxScheduler.hpp:307-314 | exactly the contexts in the cache are charged |
| TxScheduler.TxScheduler.Tick | winject/src/TxScheduler.hpp:186-324 | probe, rounds and charging in sequence; rounds are bounded by n, by octets left plus one under the condition of EndsExactly and by the quanta; nothing is allocated past the payload and what is sent is what was allocated |
| TxScheduler.TickEnds | winject/src/TxScheduler.hpp:206-305 | attached LLCs with positive quanta let every tick end after at most one round more than octets left |
| TxScheduler.StaleCharge | winject/src/TxScheduler.hpp:229-313 | three concrete ticks after which a charge has wrapped around |

## Left out

- PdcpSender.PdcpUl.WritePdcp: buffers of at most 0x7FFF octets, since SIZE has 15 bits; what a larger size would leave in the header is the contract of View.SetPayloadSize.
- PdcpReceiver.PdcpDl.ParseSegments: like OnPdcpData, every segment the parser reaches has a SIZE covering its header.
- PdcpReceiver.PdcpDl.OnPdcpData: requires that every segment the parser reaches has a SIZE covering its header; the source subtracts the header size without checking.
- PdcpLink.PrefixSafety: buffers of at most 0x7FFF octets (SIZE has 15 bits), frame offsets below 65536 and fewer than 65536 frames, the limits of the header fields; with 65536 frames it is false (PdcpLate.LinkPrefixExactly).
- LlcFrame.AlterationRejected: says nothing of windows that straddle the CRC field and the payload, or that change SIZE and with it the octets covered by the check.
- LlcUl.LlcUl.WriteLlcPdu: requires the buffer to hold the header, which the source reads without checking; stored PDU octets are a snapshot, so later writes through a shared buffer view are not modelled.
- LlcUl.LlcUl.EnqueueTxCheck: slot numbers are unbounded, the source's size_t would wrap after 2^64 slots.
- Codec.Dec: decoding starts from freshly constructed objects; decoding into a vector that already has elements would append to them.
- CodecCtx.PerCodecCtx.DecodeText: a text without NUL in the buffer is a failure; the source reads past the buffer before it finds that out.
- TxScheduler.TxScheduler.Tick: asks that with the LLCs at hand the rounds end after some number of them, since a method that does not return has no result to describe; the runs without end are ScheduleEnds.Endless.
- TxScheduler.TxScheduler.RunRounds: deficits and quanta are unbounded in additions; only the subtraction of the charge is modelled with 64-bit wrap-around. The FEC region is a parameter of the tick.
- Signed scalars, enumerations and booleans of the codec are the unsigned numbers with the same octets; the byte order is that of a little-endian machine.
- Optional types are modelled as direct fields of a sequence only, and a choice never lacks a value.
- The str printers of the codec, its constants and the parser of the schema language: no part of the octet format.
- The reflected variants of the CRC template are never instantiated and not modelled; the register width is a parameter of at least eight bits.
- reconfigure during a run: the configuration stays fixed.
- prepare_llc_pdu sets three header fields and adds nothing to the laws of single fields.
- The storage behind sized_buffer (capacity, moving out) is not modelled; a reassembly buffer is a sequence of cells, unset until written.
- Sockets, threads, mutexes, clocks, logging and metrics: a call or a tick is one step.
- The older LLC.cpp and PDCP.cpp layers, except the receiver's CRC check, and LCRRC.hpp, basic_fec and the radiotap headers.
