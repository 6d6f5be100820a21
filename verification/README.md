# iSCSI initiator: a verified model of its data path

This project models the core of the iSCSI initiator for macOS and proves what it guarantees, and where it
falls short of what one would expect, by exact conditions:

* the CRC-32C engine: the table-driven byte loop and the three-way interleaved block form are proved to
  compute the same function, that function is proved to be the remainder of polynomial division by the
  generator of section 12.1 of RFC 3720, and the errors it catches are characterised;
* the wire format and the write path of the kernel HBA: framing round trips over whole streams, the tiling of
  a SCSI buffer by immediate data, unsolicited Data-Out and answers to R2Ts, and sequence numbering over
  every interleaving of sends and receives;
* the per-connection task queue, the loop that drains it, the life of connections and sessions, and the tasks of a
  session from submission to report;
* the driver extension (DEXT): its table of pending tasks, its tag counter and its outgoing queue, which are
  arrays scanned from the front, proved to refine a map and to conserve a multiset.

Code that changes things step by step is modelled by classes, arrays and loops, each method proved against a
function of the old state; the main theorems are lemmas about those functions. What a header says is stated by its bytes
and bits, and a method's frame names the fields it may change. `dafny verify dfyconfig.toml` checks the whole project.

| file | content |
|---|---|
| `Words.dfy` | options, 32-bit words and wrap-around, occurrences in a sequence |
| `Crc32cSpec.dfy` | the CRC register bit by bit and byte by byte: linearity, injectivity, streaming |
| `KnownAnswers.dfy` | what 4 and 32 zero bytes make of the register, in numbers |
| `Gf2Matrix.dfy` | matrices over GF(2), repeated squaring, the operator for runs of zeros |
| `Crc32Instructions.dfy` | the 8-bit and 64-bit CRC instructions on a 64-bit register |
| `Crc32cEngine.dfy` | the tables and the two bodies of `crc32c` |
| `PolyDivision.dfy` | polynomials over GF(2), division, and the register as a remainder |
| `BurstErrors.dfy` | what a CRC comparison detects |
| `SteeredDigest.dfy` | four bytes reach any digest; a changed header that is accepted |
| `PduHeader.dfy`, `PduStream.dfy` | header fields, PDU layout, reading back, digests |
| `TaskTag.dfy`, `TaskQueue.dfy`, `DrainLoop.dfy` | task tags, the task queue, draining it |
| `TaskLife.dfy` | the tasks of a session from submission to report |
| `Transport.dfy` | sessions, connections, `SendPDU`, `RecvPDUHeader`, `RecvPDUData` |
| `WriteTransfer.dfy`, `WriteTask.dfy` | Data-Out sequences, starting a task, answering R2Ts, whole writes |
| `SessionSlots.dfy`, `VirtualHba.dfy` | bookkeeping of sessions; create, activate, submit, respond, time out, deactivate, release |
| `SlotScan.dfy` | scans of slot arrays |
| `DextTasks.dfy`, `DextTags.dfy`, `DextTable.dfy` | the pending-task table: ledger, tags as a map, the array itself |
| `DextOutgoing.dfy`, `DextHba.dfy` | the outgoing queue; submission, pings, unregistering and closing |
| `DextNumbering.dfy` | the command numbers of a session from use to hand-over |

The 64-bit CRC instruction is taken to be 64 bit steps on the exclusive-or of the register and the eight bytes
read little-endian, and the 8-bit instruction to be 8 bit steps. Host memory is little-endian.

## What the proofs found

The model follows the code. Where the code departs from its own comments or from RFC 3720, the exact condition is a
theorem:

* A received header digest word of zero is never compared (`Source/Kernel/iSCSIVirtualHBA.cpp:2023`): a corrupted
  header is accepted exactly when the digest arrives as zero (`PduStream.HeaderBurst`).  Every 44 bytes begin a header
  that a burst of two bits changes unnoticed (`SteeredDigest.ChangedHeaderAccepted`).
* A PDU of 2^24 bytes or more is sent with a length field that no longer describes it (`Transport.WellFormedIff`).
* The data digest covers the data without its padding (`Source/Kernel/iSCSIVirtualHBA.cpp:1916` and `2133`), although
  the comment in line 2132 and section 12.1 of RFC 3720 include the padding (`PduStream.DataBurst`).
* A SCSI response for an unknown task reads its data segment twice; with data digests on it reads four more bytes
  even without data (`PduStream.StaysOnBoundary`).
* A failed send still uses up its command number, and starting a task accounts its immediate data whether or not
  the command was sent (`Transport.SendPDU`, `WriteTask.BeginTask`).
* The F bit of a write command is clear although no unsolicited Data-Out follows in exactly two cases
  (`WriteTask.FinalBitHonest`).
* With a segment limit of 0 and something to send the Data-Out loop sends empty PDUs until a send fails, for ever if none
  does (`WriteTransfer.LoopEndsIff`).
* Tag 0 (task 0 on unit 0) ends the drain loop early (`DrainLoop.DrainEmpties`).
* A response takes whatever is at the head of the task queue: its own task as long as no task-management response,
  clearing, or time-out of another task has removed a started one without reporting it
  (`TaskQueueModel.EveryResponseTakesItsOwnIff`, `TaskQueueModel.TaskManagementTakesForeignTask`).
* A task taken out of the queue by the response of another stays outstanding, and deactivating the connection passes it
  by (`TaskLife.QueuedIffNeverStrands`, `TaskLife.TaskStranded`).
* A task identifier of more than 16 bits reads as a unit, so that two tasks can share a tag (`TaskTag.TagsShared`).
* Activating an enabled connection or deactivating a disabled one miscounts (`SessionSlots.ConsistentIffAlternating`);
  opening a second session under a name in use breaks the name table (`VirtualHba.Hba.CreateSession`); activating all
  connections fails for a session with a single connection, after activating it (`VirtualHba.Hba.ActivateAllConnections`).
* In the DEXT, a command is accepted and numbered although the full outgoing queue drops it
  (`DextHba.Hba.ProcessParallelTask`), which tears a hole into the numbers the daemon sends
  (`DextNumbering.ServedIffNeverBreaks`), and carries the session's ExpCmdSN where ExpStatSN belongs
  (`DextHba.CommandHeaderReadsBack`); a PDU is thrown away when the daemon's buffer is too small
  (`DextOutgoing.GetNext`); the queue is first in, first out exactly as long as no PDU is put in front of a waiting one
  (`DextOutgoing.HandOverIff`), and one PDU can wait for ever (`DextOutgoing.SecondCanStarve`); unregistering completes
  none of the tasks it drops (`DextTasks.CompletedOrDropped`), and a task that outlives a whole cycle of tags shares its
  tag with a new one (`DextTags.TagReused`), so that unregistering one target can drop the task of another
  (`DextTags.UnregisterDropsForeign`).

## Model

| member | source | states |
|---|---|---|
| `Crc32cSpec.BitStepLinear` | Source/Kernel/crc32c.c:166-172 | one bit step of the register is linear over GF(2) |
| `Crc32cSpec.BitStepInjective` | Source/Kernel/crc32c.c:166-172 | one bit step loses no information: equal results come from equal registers |
| `Crc32cSpec.BitStepsInjective` | Source/Kernel/crc32c.c:166-172 | nor do any number of bit steps |
| `Crc32cSpec.LowByteDecides` | Source/Kernel/crc32c.c:268-274 | eight bit steps of a register are the eight steps of its low byte alone, xor the other three bytes moved down: why a 256-entry table suffices |
| `Crc32cSpec.FeedConcat` | Source/Kernel/crc32c.c:268-274 | feeding two byte strings in turn is feeding their concatenation |
| `Crc32cSpec.FeedFromZero` | Source/Kernel/crc32c.c:212-219 | the register after a string is its effect from zero, xor the seed advanced by as many zero bits: why blocks can be processed apart |
| `Crc32cSpec.FeedInjective` | Source/Kernel/crc32c.c:268-274 | different seeds stay different under the same bytes |
| `Crc32cSpec.FeedZeros` | Source/Kernel/crc32c.c:81-85 | feeding n zero bytes is 8n bit steps |
| `Crc32cSpec.Crc32cStreams` | Source/Kernel/crc32c.c:176-190 | crc(crc(c, A), B) = crc(c, A + B) for every seed and all buffers, and an empty buffer returns the seed |
| `KnownAnswers.ThirtyTwoZeros` | Source/Kernel/crc32c.c:176-275 | the CRC of 32 zero bytes is 0x8a9136aa, as appendix B.4 of RFC 3720 has it |
| `Gf2Matrix.MatrixTimes` | Source/Kernel/crc32c.c:53-69 | the loop returns the product of matrix and vector over GF(2), for any matrix with enough rows |
| `Gf2Matrix.TimesLinear` | Source/Kernel/crc32c.c:53-69 | the product is linear in the vector |
| `Gf2Matrix.EveryWordFits` | Source/Kernel/crc32c.c:53-58 | 32 rows are enough for every 32-bit vector |
| `Gf2Matrix.SquareIsTwice` | Source/Kernel/crc32c.c:71-79 | the square of M applied to v is M applied to Mv |
| `Gf2Matrix.SquareDoubles` | Source/Kernel/crc32c.c:99-116 | squaring the operator for n zero bits gives the operator for 2n |
| `Gf2Matrix.MatrixSquare` | Source/Kernel/crc32c.c:71-79 | the loop fills the array with the square of the other matrix |
| `Gf2Matrix.UnitRowsIdentity` | Source/Kernel/crc32c.c:92-98 | the matrix of unit rows is the identity on vectors that fit |
| `Gf2Matrix.BitMatrixSteps` | Source/Kernel/crc32c.c:92-98 | POLY followed by unit rows is the operator for one zero bit |
| `Gf2Matrix.FillBitMatrix` | Source/Kernel/crc32c.c:92-98 | the loop builds that operator in place |
| `Gf2Matrix.ZerosOp` | Source/Kernel/crc32c.c:86-121 | for every length the squaring loop ends with the operator whose product with any CRC equals feeding as many zero bytes as the largest power of two not above the length (one for length 0) |
| `Crc32Instructions.QuadIsBytes` | Source/Kernel/crc32c.c:246-252 | up to eight bytes taken as one little-endian word have the effect of the bytes one by one |
| `Crc32Instructions.Crc32qFeeds` | Source/Kernel/crc32c.c:208-217 | the 64-bit instruction feeds its eight bytes in order |
| `Crc32Instructions.Crc32bFeeds` | Source/Kernel/crc32c.c:194-200 | the 8-bit instruction feeds its byte |
| `Crc32cEngine.ShiftIsZeros` | Source/Kernel/crc32c.c:139-144 | four table look-ups give the product with the zeros operator, for every 32-bit value |
| `Crc32cEngine.FillColumn` | Source/Kernel/crc32c.c:131-136 | one round of the table loop fills entry n of all four tables and nothing else |
| `Crc32cEngine.ZeroTables` | Source/Kernel/crc32c.c:123-137 | the four tables apply the zeros operator for the given length |
| `Crc32cEngine.TableEntry` | Source/Kernel/crc32c.c:167-172 | the inner loop, with its mask by negation, computes eight bit steps |
| `Crc32cEngine.ByteTable` | Source/Kernel/crc32c.c:166-172 | all 256 entries are the eight bit steps of their index |
| `Crc32cEngine.Recombine` | Source/Kernel/crc32c.c:218-219 | the shifted CRC of one block xor the CRC of the next from zero is the CRC of both |
| `Crc32cEngine.ThreeBlocks` | Source/Kernel/crc32c.c:206-222 | three interleaved CRCs over adjacent blocks recombine to the CRC of all three blocks, for any block size with matching tables |
| `Crc32cEngine.ShiftAndAdd` | Source/Kernel/crc32c.c:218-219 | one recombination step on 64-bit registers |
| `Crc32cEngine.PowersOfTwo` | Source/Kernel/crc32c.c:146-152 | both block sizes, 8192 and 256, are powers of two, so that the tables shift by exactly one block |
| `Crc32cEngine.Engine.Init` | Source/Kernel/crc32c.c:160-173 | initialisation makes all tables right |
| `Crc32cEngine.Engine.Portable` | Source/Kernel/crc32c.c:267-275 | the byte-at-a-time loop computes the CRC for every seed and buffer, and by the definition of section 12.1 of RFC 3720: the complement of its result is the remainder of the message with the complement of the seed added at its front |
| `Crc32cEngine.Engine.Fast` | Source/Kernel/crc32c.c:182-265 | so does the three-way form, for every seed, buffer, length and start alignment, by the same definition: the two bodies agree |
| `PolyDivision.DivisionLaw` | Source/Kernel/crc32c.c:268-274 | dividend = quotient times generator + remainder |
| `PolyDivision.DivisionUnique` | Source/Kernel/crc32c.c:268-274 | quotient and remainder are determined by that equation |
| `PolyDivision.PolyIsTaps` | Source/Kernel/crc32c.c:47-48 | POLY holds, in reversed bit order, the coefficients of the generator of section 12.1 of RFC 3720 |
| `PolyDivision.FeedMessageBits` | Source/Kernel/crc32c.c:268-274 | feeding bytes is feeding their bits, least significant first, one at a time |
| `PolyDivision.DivisionStep` | Source/Kernel/crc32c.c:167-171 | a bit step is one step of long division |
| `PolyDivision.RegisterIsRemainder` | Source/Kernel/crc32c.c:268-274 | the register after a message is the remainder of the message polynomial, with the seed added at its front |
| `PolyDivision.FeedIsRemainder` | Source/Kernel/crc32c.c:268-274 | the register is the only value that completes the division equation, for every seed and message |
| `PolyDivision.ChecksumIsRemainder` | Source/Kernel/crc32c.c:268-274 | the CRC, complemented, is the only value that completes the division equation of the message with the complemented seed at its front |
| `BurstErrors.WindowInjective` | Source/Kernel/crc32c.c:166-172 | from one register, different strings of at most 32 bits lead to different registers |
| `BurstErrors.FeedDetectsBurst` | Source/Kernel/crc32c.c:268-274 | two strings that differ only inside 32 consecutive bits reach the same register if and only if they are equal |
| `BurstErrors.BurstDetected` | Source/Kernel/crc32c.c:176-275 | so they never have the same CRC under the same seed |
| `BurstErrors.MissedIffMultiple` | Source/Kernel/crc32c.c:176-275 | two equally long buffers have the same CRC if and only if their difference is a multiple of the generator |
| `BurstErrors.OnlyChecksum` | Source/Kernel/crc32c.c:268-274 | and the only word that does |
| `BurstErrors.BurstOf33Missed` | Source/Kernel/crc32c.c:176-275 | 32 is the best bound: two buffers that differ in a window of 33 bits and have the same CRC under every seed |
| `BurstErrors.ChecksIffResidue` | Source/Kernel/iSCSIVirtualHBA.cpp:1878-1888 | a digest belongs to a message if and only if message and digest together take a register of ones to 0xb798b438 |
| `BurstErrors.CheckedMessageBurst` | Source/Kernel/iSCSIVirtualHBA.cpp:2022-2034 | a digest comparison passes after a burst of at most 32 bits anywhere in message and digest if and only if nothing changed |
| `PduHeader.FieldOfPut` | Source/Kernel/iSCSIVirtualHBA.cpp:1848-1859 | a stored field is read back, and fields beside it are untouched |
| `PduHeader.WordOfPut` | Source/Kernel/iSCSIVirtualHBA.cpp:1191-1192 | a byte-swapped word is read back by swapping again |
| `PduHeader.WordOnWire` | Source/Kernel/iSCSIVirtualHBA.cpp:1850-1857 | a stored word is in network byte order on the wire |
| `PduHeader.WordIsBigEndian` | Source/Kernel/iSCSIVirtualHBA.cpp:1154-1155 | reading a word is reading four bytes in network order |
| `PduHeader.DataLengthRoundTrip` | Source/Kernel/iSCSIVirtualHBA.h:477-490 | the length is in bytes 5 to 7, the low 24 bits in network order, and reads back as the length modulo 2^24 |
| `PduStream.HeaderReadsBack` | Source/Kernel/iSCSIVirtualHBA.cpp:1979-2034 | a header written with its optional digest is accepted unchanged, anywhere in a stream |
| `PduStream.DataReadsBack` | Source/Kernel/iSCSIVirtualHBA.cpp:2087-2143 | a data segment written with padding and optional digest is accepted unchanged, and exactly its bytes are consumed |
| `PduStream.StreamRoundTrip` | Source/Kernel/iSCSIVirtualHBA.cpp:1859-1924 | a sequence of PDUs written in a row and read header then data is recovered exactly, whatever follows it, with the cursor at its end, if and only if every header states the length of its data |
| `PduStream.StreamAligned` | Source/Kernel/iSCSIVirtualHBA.cpp:1900-1907 | every such stream is a multiple of four bytes long |
| `PduStream.PaddingFillsWord` | Source/Kernel/iSCSIVirtualHBA.cpp:1900-1907 | the padding is less than four bytes and fills the last word |
| `PduStream.StreamConcat` | Source/Kernel/iSCSIVirtualHBA.cpp:1859-1924 | streams of PDUs concatenate |
| `PduStream.HeaderBurst` | Source/Kernel/iSCSIVirtualHBA.cpp:2022-2034 | a header hit by a burst of at most 32 bits is accepted if and only if nothing changed or the digest arrived as zero |
| `SteeredDigest.FourBytesSteer` | Source/Kernel/crc32c.c:176-275 | every message can be extended by four bytes to have any given CRC |
| `SteeredDigest.ChangedHeaderAccepted` | Source/Kernel/iSCSIVirtualHBA.cpp:2022-2034 | the exception is met: each 44 bytes begin a header that, sent with its digest and hit by a certain burst of two bits, arrives changed and is accepted |
| `PduStream.DataBurst` | Source/Kernel/iSCSIVirtualHBA.cpp:2129-2143 | a data segment hit by such a burst is accepted if and only if data and digest are unchanged; any padding is accepted |
| `PduStream.StaysOnBoundary` | Source/Kernel/iSCSIVirtualHBA.cpp:906-938 | handling an intact PDU leaves the stream on the next PDU except exactly: a response for an unknown task that re-reads something, and data on a PDU whose handler reads none |
| `PduStream.ArrivesNext` | Source/Kernel/iSCSIVirtualHBA.cpp:685-744 | of a stream of intact PDUs each read whole by its handler, the next header read is that of the next PDU, and behind it the rest arrives |
| `TaskTag.FieldsComeBack` | Source/Kernel/iSCSIVirtualHBA.h:451-475 | type, unit and identifier of a tag come back if and only if the identifier fits 16 bits and the unit 8 |
| `TaskTag.TagsDistinguish` | Source/Kernel/iSCSIVirtualHBA.h:451-460 | within those limits tags are distinct, none is the probe's tag, and only task 0 of unit 0 has tag 0 |
| `TaskTag.TagsShared` | Source/Kernel/iSCSIVirtualHBA.h:451-460 | exactly the tasks whose truncated identifier and unit overlap to the same bits share the tag of a given task within the limits |
| `TaskTag.OutOfRangeTags` | Source/Kernel/iSCSIVirtualHBA.h:451-460 | task 65536 of unit 0 shares its tag with task 0 of unit 1, and task 0 of unit 256 has the tag of the probe |
| `TaskQueueModel.StepKeepsInv` | Source/Kernel/iSCSITaskQueue.cpp:60-173 | every operation keeps: starts rise in queue order, nothing behind the head has started, and the wake flag is set exactly while a waiting head is unstarted |
| `TaskQueueModel.RunKeepsInv` | Source/Kernel/iSCSITaskQueue.cpp:60-173 | so does every run |
| `TaskQueueModel.FifoAndNoLostWakeUp` | Source/Kernel/iSCSITaskQueue.cpp:62-153 | over every run tasks start first in, first out, at most once, and a non-empty queue has either its flag set and an unstarted head or a started head |
| `TaskQueueModel.NextCheckStarts` | Source/Kernel/iSCSITaskQueue.cpp:122-153 | in an enabled non-empty queue a check leaves the head started, and a further check does nothing |
| `TaskQueueModel.ResponseTakesOwnTask` | Source/Kernel/iSCSITaskQueue.cpp:91-119 | the started head is still at the head after any run if and only if nothing in it removed from the queue: then the next completion takes that very task |
| `TaskQueueModel.ResponsesTakeTheirOwnIff` | Source/Kernel/iSCSIVirtualHBA.cpp:906-996 | over every run with a target that answers started tasks, and with each task reported once, at every point the responses so far have taken their own tasks and so will the next, whichever comes, if and only if no removal leaves a started task unreported: no management response, no clearing, no time-out of another task, and no drain that ends on tag 0 does |
| `TaskQueueModel.EveryResponseTakesItsOwnIff` | Source/Kernel/iSCSIVirtualHBA.cpp:846-847 | the same from the empty queue, and then every response of the run has taken its own task |
| `TaskQueueModel.TaskManagementTakesForeignTask` | Source/Kernel/iSCSIVirtualHBA.cpp:846-847 | a run in which a task-management response takes a started task that awaits its own response, and that response then takes the next task |
| `TaskQueueModel.TaskQueue.constructor` | Source/Kernel/iSCSITaskQueue.cpp:40-58 | a new queue is empty and disabled |
| `TaskQueueModel.TaskQueue.QueueTask` | Source/Kernel/iSCSITaskQueue.cpp:62-86 | appends the tag and raises the flag if it is the only one |
| `TaskQueueModel.TaskQueue.CompleteCurrentTask` | Source/Kernel/iSCSITaskQueue.cpp:91-119 | removes and returns the head, or returns 0, and raises the flag if more wait; what was reported by it, and which task a response answered and took, is recorded |
| `TaskQueueModel.TaskQueue.CheckForWork` | Source/Kernel/iSCSITaskQueue.cpp:122-153 | starts the head exactly if the queue is enabled, flagged and not empty |
| `TaskQueueModel.TaskQueue.ClearTasksFromQueue` | Source/Kernel/iSCSITaskQueue.cpp:155-173 | disables and empties the queue |
| `DrainLoop.DrainLeaves` | Source/Kernel/iSCSIVirtualHBA.cpp:1763-1781 | what the drain loop leaves in the queue and in the bandwidth window, for every queue, task set and window index: what stood behind the first tag 0, and one probe for each full window |
| `DrainLoop.DrainEmpties` | Source/Kernel/iSCSIVirtualHBA.cpp:1763-1781 | the queue ends empty if and only if no tag is 0, or the first 0 stands last and no probe was queued behind it |
| `DrainLoop.DrainReports` | Source/Kernel/iSCSIVirtualHBA.cpp:1768-1781 | each outstanding task in front of the first tag 0, and one that goes by the tag of a probe the loop reaches, is reported to the driver stack exactly once and removed, and no other |
| `TaskLife.StepSettledIff` | Source/Kernel/iSCSIVirtualHBA.cpp:751-799 | submission, response, time-out, deactivation, release: each keeps that every submission of a tag has been reported but for the outstanding one, if and only if it does not submit an outstanding tag |
| `TaskLife.SettledIffFresh` | Source/Kernel/iSCSIVirtualHBA.cpp:480-547 | so does every run, if and only if no tag is submitted while it is outstanding |
| `TaskLife.EveryTaskReportedOnce` | Source/Kernel/iSCSIVirtualHBA.cpp:751-799 | over every such run of a session no submission is reported twice, and one that is not reported is still outstanding |
| `TaskLife.StepQueuedIff` | Source/Kernel/iSCSIVirtualHBA.cpp:986-991 | each event keeps every outstanding task in the queue of the first connection if and only if it strands none: by removing an outstanding head it does not report, by ending a drain on an outstanding tag 0, or by releasing a connection with tasks it does not report |
| `TaskLife.QueuedIffNeverStrands` | Source/Kernel/iSCSIVirtualHBA.cpp:986-991 | so does every run, if and only if no event of it strands a task |
| `TaskLife.DeactivationSettlesIff` | Source/Kernel/iSCSIVirtualHBA.cpp:1763-1781 | deactivating the first connection then leaves nothing outstanding if and only if every outstanding task stands in front of the first tag 0: without a queued tag 0 always, with an outstanding one never |
| `TaskLife.EverythingReported` | Source/Kernel/iSCSIVirtualHBA.cpp:1763-1781 | after every run that strands no task and submits no outstanding tag, deactivating reports all that was submitted, once each, unless tag 0 is queued |
| `TaskLife.TaskStranded` | Source/Kernel/iSCSIVirtualHBA.cpp:889 | a run in which a task is stranded: its connection is deactivated and it is never reported |
| `Transport.StampKeeps` | Source/Kernel/iSCSIVirtualHBA.cpp:1848-1859 | sending changes no header field but the length and the sequence numbers |
| `Transport.StampedNumbers` | Source/Kernel/iSCSIVirtualHBA.cpp:1848-1859 | a sent header carries the current numbers and the length; a Data-Out keeps its own bytes where others carry CmdSN |
| `Transport.StampOnWire` | Source/Kernel/iSCSIVirtualHBA.cpp:1848-1859 | byte for byte: a sent header has the length in bytes 5 to 7, the command number in 24 to 27 unless it is a Data-Out, the acknowledged number in 28 to 31, all in network order, and is otherwise as it was |
| `Transport.IssueNext` | Source/Kernel/iSCSIVirtualHBA.cpp:1848-1855 | sending one more PDU keeps the session's numbering invariant |
| `Transport.NumbersAdvance` | Source/Kernel/iSCSIVirtualHBA.cpp:1848-1857 | between any two PDUs of a session the command number advances by the number of headers in between whose first byte has bit 0x40 clear and is not 0x05, modulo 2^32 |
| `Transport.TrafficNext` | Source/Kernel/iSCSIVirtualHBA.cpp:2036-2056 | over any interleaving of sends and receives each PDU acknowledges the initial status number plus the counted status PDUs heard before it, modulo 2^32 |
| `Transport.WireIsStream` | Source/Kernel/iSCSIVirtualHBA.cpp:1859-1938 | the bytes on the wire are the stream of the delivered PDUs |
| `Transport.WellFormedIff` | Source/Kernel/iSCSIVirtualHBA.cpp:1859 | the header of a sent PDU states the length of its data if and only if that is below 2^24 |
| `Transport.PeerReadsDelivered` | Source/Kernel/iSCSIVirtualHBA.cpp:1979-2034 | a peer with the same digest settings recovers exactly the PDUs whose send succeeded if and only if each carries fewer than 2^24 bytes |
| `Transport.PeerReadsConnection` | Source/Kernel/iSCSIVirtualHBA.cpp:1837-1939 | the same of what a connection has put on the wire, as long as its digest settings stay |
| `Transport.SendPDU` | Source/Kernel/iSCSIVirtualHBA.cpp:1837-1939 | issues the stamped header and the data and appends them to the wire unless the send fails; a first byte of 0x05 or with bit 0x40 leaves the command number, any other counts one up modulo 2^32, whether the send fails or not; numbering invariants are kept |
| `Transport.AnswerPing` | Source/Kernel/iSCSIVirtualHBA.cpp:892-903 | the answer to a ping of the target is sent with its data, unit and transfer tag, marked immediate, and uses up no command number |
| `Transport.Connection.SetInitialExpStatSN` | Source/Kernel/iSCSIHBAUserClient.cpp:1035-1037 | the status number reached during login becomes the one that all later acknowledgements count from |
| `Transport.LayOut` | Source/Kernel/iSCSIVirtualHBA.cpp:1861-1924 | the gathered pieces are header, optional digest, data, padding, optional digest |
| `Transport.RecvPDUHeader` | Source/Kernel/iSCSIVirtualHBA.cpp:1962-2059 | reads a header from the stream and takes over its numbers as below; a rejected header changes none |
| `Transport.TakeNumbers` | Source/Kernel/iSCSIVirtualHBA.cpp:2036-2056 | by the bytes of the header: the window numbers in bytes 28 to 35 are taken over if greater, and the expected status number counts one up modulo 2^32, except for a Data-In (0x25) without status; the status number also not for an R2T (0x31) or a reserved status number or task tag |
| `Transport.RecvPDUData` | Source/Kernel/iSCSIVirtualHBA.cpp:2070-2146 | fills the buffer from the stream, skips padding, and fails exactly on a digest mismatch |
| `Transport.ProcessIncoming` | Source/Kernel/iSCSIVirtualHBA.cpp:685-744 | one incoming PDU: its header is accepted or rejected as read, its numbers are taken over, and the stream moves as each handler reads |
| `WriteTransfer.CountersExact` | Source/Kernel/iSCSIVirtualHBA.cpp:1215 | as long as the 64-bit counter of bytes to transfer stays in range it is exact, and what a submission adds and a transfer of the same size subtracts cancel out in any case |
| `WriteTransfer.DataOutOnWire` | Source/Kernel/iSCSIVirtualHBA.cpp:1179-1199 | a Data-Out as it is sent, byte for byte: opcode, F bit, unit, both tags, acknowledged number, DataSN and offset in their places in network order, and zeros in the reserved ones |
| `WriteTransfer.DataOutFields` | Source/Kernel/iSCSIVirtualHBA.cpp:1179-1199 | so its offset, DataSN and F bit read back, and its command number is never set |
| `WriteTransfer.CommandOnWire` | Source/Kernel/iSCSIVirtualHBA.cpp:583-604 | a SCSI command as it is sent, byte for byte: opcode, flags, unit, tag, transfer length, command number, acknowledged number and command block |
| `WriteTransfer.CommandFlagBits` | Source/Kernel/iSCSIVirtualHBA.cpp:592-617 | its flags: F, read exactly for a transfer from the target, write exactly for one to it, and the attribute in the low three bits |
| `WriteTransfer.AmountIsPrefix` | Source/Kernel/iSCSIVirtualHBA.cpp:1202-1219 | the bytes accounted are the prefix sent: up to the failed PDU if there is one |
| `WriteTransfer.PayloadIsSlice` | Source/Kernel/iSCSIVirtualHBA.cpp:1188-1219 | the data of a sequence, in order, is the slice of the buffer it stands for |
| `WriteTransfer.PieceIsTile` | Source/Kernel/iSCSIVirtualHBA.cpp:1188-1219 | PDU k of a sequence with a segment limit starts at offset + k times the limit, has DataSN k, and F exactly on the last |
| `WriteTransfer.DataOutTiles` | Source/Kernel/iSCSIVirtualHBA.cpp:1162-1223 | without send errors the PDUs tile [offset, offset + length): exact data, ceil(length / limit) PDUs (none for length 0), each within the limit, DataSN 0, 1, 2, ..., F on the last only, all bytes accounted |
| `WriteTransfer.ReadBytes` | Source/Kernel/iSCSIVirtualHBA.cpp:1201 | copies from the task's buffer as far as it reaches |
| `WriteTransfer.SendPiece` | Source/Kernel/iSCSIVirtualHBA.cpp:1190-1203 | one round of the loop sends piece k and no command number is used |
| `WriteTransfer.ProcessDataOutForTask` | Source/Kernel/iSCSIVirtualHBA.cpp:1162-1223 | whenever the loop ends, it sends pieces 0, 1, ... until done or a send fails, as the socket decides; by what was sent the realised count has risen and the bytes to transfer have fallen |
| `WriteTransfer.LoopEndsIff` | Source/Kernel/iSCSIVirtualHBA.cpp:1188-1219 | there is a run for the loop to end with if and only if there is a segment limit, nothing to send, or a later send that fails |
| `WriteTask.UnsolicitedByPolicy` | Source/Kernel/iSCSIVirtualHBA.cpp:1692-1693 | after activation the unsolicited data is nothing, the lesser of immediate length and buffer, or the lesser of first burst and buffer by the two switches, and never above the first burst |
| `WriteTask.FinalBitHonest` | Source/Kernel/iSCSIVirtualHBA.cpp:623-682 | of the PDUs a task sends: with F set on the command no unsolicited Data-Out follows; with F clear some does, except exactly in two cases with InitialR2T off (section 10.3.1 of RFC 3720); of the Data-Out of a delivered sequence the last carries F and no other |
| `WriteTask.SendCommand` | Source/Kernel/iSCSIVirtualHBA.cpp:583-670 | sends the command PDU of the task, with F bit, direction, attribute, unit, tag, transfer length, numbers and command block in their bytes, and the first bytes of its buffer as immediate data; uses one command number |
| `WriteTask.SendUnsolicited` | Source/Kernel/iSCSIVirtualHBA.cpp:672-682 | sends the Data-Out pieces from the immediate data to the end of the first burst, if the two switches and the direction allow any |
| `WriteTask.BeginTask` | Source/Kernel/iSCSIVirtualHBA.cpp:549-683 | sends that command and then the unsolicited Data-Out, with honest F bits, and accounts both; the immediate data is accounted even if the command could not be sent. With InitialR2T no Data-Out follows; without ImmediateData the command carries no data, with it the lesser of the agreed length and the buffer |
| `WriteTask.R2TOnWire` | Source/Kernel/iSCSIVirtualHBA.cpp:1153-1158 | an R2T has its unit in bytes 8 to 15, the task in 16 to 19, its transfer tag in 20 to 23, the offset in 40 to 43 and the length in 44 to 47 |
| `WriteTask.ProcessR2T` | Source/Kernel/iSCSIVirtualHBA.cpp:1138-1160 | answers an R2T that names the task, by those bytes, with the pieces of the interval it asks for, under its unit and transfer tag; any other is dropped; what is sent is accounted |
| `WriteTask.RunCovers` | Source/Kernel/iSCSIVirtualHBA.cpp:1188-1219 | a delivered sequence carries every byte of its interval once and no other, each with the value the buffer holds there, as far as the buffer reaches |
| `WriteTask.AnswersCover` | Source/Kernel/iSCSIVirtualHBA.cpp:1138-1160 | the answers to R2Ts carry each byte as often as the R2Ts ask for it, with its value as far as the buffer reaches |
| `WriteTask.WriteCoverage` | Source/Kernel/iSCSIVirtualHBA.cpp:638-682 | without failed sends, each byte of the buffer is sent with its value once for the unsolicited part and once per R2T asking for it; the bytes before any R2T are the beginning of the buffer in order; exactly the bytes sent are accounted |
| `WriteTask.CoverageIsTotal` | Source/Kernel/iSCSIVirtualHBA.cpp:1153-1158 | counting asked bytes of the buffer by position or by R2T gives the same total if and only if no R2T reaches past the buffer, and less otherwise |
| `WriteTask.WholeWrite` | Source/Kernel/iSCSIVirtualHBA.cpp:638-682 | without failed sends every PDU carries what the buffer holds at its place, what precedes the first R2T is the buffer up to the unsolicited end, in order, and every byte is sent exactly once if and only if the R2Ts ask, in any order, for exactly what the unsolicited data left over; then the amount accounted is the buffer if and only if no R2T reaches past it, and more otherwise |
| `WriteTask.AnswerR2Ts` | Source/Kernel/iSCSIVirtualHBA.cpp:685-744 | reads the PDUs that arrive on the connection and takes over the numbers of each in turn, answers each R2T for the task with the status number reached by then, accounts all that was sent, and leaves the stream behind the last of them |
| `WriteTask.PerformWrite` | Source/Kernel/iSCSIVirtualHBA.cpp:549-683 | a command and whatever intact PDUs then arrive, run on the connection: the bytes to transfer fall by what was sent; without failed sends all that WholeWrite says holds of the log, and when the R2Ts ask for exactly the rest, the counter is back at what it was before the submission raised it by the length of the buffer |
| `SessionSlots.NamesAfterCreate` | Source/Kernel/iSCSIVirtualHBA.cpp:1375-1380 | opening a session keeps names and live sessions in bijection if and only if the name is not in use |
| `SessionSlots.NamesAfterFailedCreate` | Source/Kernel/iSCSIVirtualHBA.cpp:1390-1396 | undoing it restores the table if and only if the name was not in use |
| `SessionSlots.NamesAfterRelease` | Source/Kernel/iSCSIVirtualHBA.cpp:1453-1465 | releasing a session keeps the bijection |
| `SessionSlots.ActivateKeeps` | Source/Kernel/iSCSIVirtualHBA.cpp:1695-1708 | activation keeps count and target consistent if and only if the connection was not enabled |
| `SessionSlots.DeactivateKeeps` | Source/Kernel/iSCSIVirtualHBA.cpp:1760-1787 | deactivation does if and only if it was enabled |
| `SessionSlots.DeactivateAllKeeps` | Source/Kernel/iSCSIVirtualHBA.cpp:1798-1820 | deactivating all connections does if and only if every existing one was enabled |
| `SessionSlots.ReleaseConnectionKeeps` | Source/Kernel/iSCSIVirtualHBA.cpp:1645-1650 | releasing a connection keeps every consistent session consistent |
| `SessionSlots.ReleasedAllKeeps` | Source/Kernel/iSCSIVirtualHBA.cpp:1439-1444 | releasing all connections leaves no target behind |
| `SessionSlots.ConsistentIffAlternating` | Source/Kernel/iSCSIVirtualHBA.cpp:1674-1711 | all through a run of connects, activations, deactivations and releases, the count is the number of enabled connections and the target exists exactly while it is positive, if and only if activations and deactivations of each connection alternate |
| `SessionSlots.DoubleActivationCounted` | Source/Kernel/iSCSIVirtualHBA.cpp:1695-1708 | two activations in a row break it |
| `VirtualHba.Hba.CompleteParallelTask` | Source/Kernel/iSCSIVirtualHBA.cpp:751-799 | reports and forgets the task; the window index counts data tasks modulo 30, and each thirtieth queues a latency probe |
| `VirtualHba.Hba.ProcessParallelTask` | Source/Kernel/iSCSIVirtualHBA.cpp:480-547 | a submitted task is queued on the first connection, enabled or not, outstanding from then on, known as one that transfers data or not, and added to its bytes to transfer; it is rejected exactly without such a connection |
| `VirtualHba.Hba.ProcessSCSIResponse` | Source/Kernel/iSCSIVirtualHBA.cpp:986-991 | a known task is reported once, and the head of the queue removed; an unknown one changes nothing |
| `VirtualHba.Hba.ProcessHeadAnswer` | Source/Kernel/iSCSIVirtualHBA.cpp:846-847 | a task-management response or the answer to a probe removes the head of the queue and reports nothing |
| `VirtualHba.Hba.HandleTimeout` | Source/Kernel/iSCSIVirtualHBA.cpp:399-439 | over a live connection the head of the queue is removed and the task reported; a broken connection is given up |
| `VirtualHba.Hba.HandleConnectionTimeout` | Source/Kernel/iSCSIVirtualHBA.cpp:444-478 | of two connections the broken one is deactivated, otherwise all are; without a daemon the connection or session is released too; in each case the tasks drained and reported, and the new state |
| `VirtualHba.Hba.DrainQueue` | Source/Kernel/iSCSIVirtualHBA.cpp:1763-1781 | the loop terminates and leaves queue, tasks, window and reports as the drain function says |
| `VirtualHba.Hba.Deactivate` | Source/Kernel/iSCSIVirtualHBA.cpp:1760-1791 | disables, drains, counts down and drops the target when the count reaches zero |
| `VirtualHba.Hba.DeactivateConnection` | Source/Kernel/iSCSIVirtualHBA.cpp:1743-1792 | error codes; the tasks waiting on the connection are drained, rejected and reported as the drain function says, one step of the life of the tasks; the new state of the session; no other session changes |
| `VirtualHba.Hba.DeactivateAllConnections` | Source/Kernel/iSCSIVirtualHBA.cpp:1798-1820 | the same for the first and then the second connection, each if it exists: tasks drained and reported, and the new state |
| `VirtualHba.Hba.ActivateConnection` | Source/Kernel/iSCSIVirtualHBA.cpp:1674-1711 | error codes, the undoing of a failed target creation, the new state of the session with its tasks kept, and the immediate data, the lesser of segment limit and first burst |
| `VirtualHba.Hba.ActivateAllConnections` | Source/Kernel/iSCSIVirtualHBA.cpp:1719-1736 | activates connection after connection; a missing one ends it with an error, and what was activated stays active |
| `VirtualHba.Hba.ReleaseConnection` | Source/Kernel/iSCSIVirtualHBA.cpp:1627-1666 | deactivates an enabled connection, rejecting and reporting what waits on it, and frees its slot; no other session changes |
| `VirtualHba.Hba.CreateConnection` | Source/Kernel/iSCSIVirtualHBA.cpp:1477-1623 | takes the first free connection slot, disabled and empty; a missing resource gives its error and undoes the entry; no other session changes |
| `VirtualHba.Hba.CreateSession` | Source/Kernel/iSCSIVirtualHBA.cpp:1307-1406 | takes the first free slot and binds the name; without memory for the session nothing changes, while a failed connection removes the name even if another session uses it; the bijection of names survives if and only if no slot was free, no memory was left, or the name was new |
| `VirtualHba.Hba.ReleaseSession` | Source/Kernel/iSCSIVirtualHBA.cpp:1425-1466 | releases both connections, with the tasks drained and reported, then empties the slot and unbinds the name; the bijection of names and the consistency of all sessions are kept |
| `VirtualHba.Hba.ReleaseAllSessions` | Source/Kernel/iSCSIVirtualHBA.cpp:1408-1420 | afterwards no session is left, and no name or target either if the tables were in order before |
| `SlotScan.CountDecidesScans` | Source/DEXT/iSCSIDextHBA.cpp:248-255 | the number of active slots decides whether a scan for a free or an active slot succeeds |
| `DextTasks.StepKeepsLedger` | Source/DEXT/iSCSIDextHBA.cpp:115-158 | every operation keeps the ledger: each accepted task is in one slot or has left once; its action was retained on acceptance and released on leaving; only tasks with an action are completed |
| `DextTasks.RunKeepsLedger` | Source/DEXT/iSCSIDextHBA.cpp:115-158 | so does every run |
| `DextTasks.EveryTaskSettledOnce` | Source/DEXT/iSCSIDextUserClient.cpp:364-403 | over every run of accept, response, abort, resets, unregister and close, each task is completed at most once, its action retained at most once and released exactly once on leaving, and active slots = accepted - retired |
| `DextTasks.CompletedOrDropped` | Source/DEXT/iSCSIDextUserClient.cpp:117-128 | a response, abort or reset completes exactly the tasks it removes, in order; unregistering and closing complete none |
| `DextTasks.CloseEmpties` | Source/DEXT/iSCSIDextUserClient.cpp:117-128 | closing empties the table and leaves the tag counter |
| `DextTags.NextTagCycles` | Source/DEXT/iSCSIDextHBA.cpp:172-181 | tags run through 0x80000000 to 0xFFFFFFFE in a cycle of 0x7FFFFFFF |
| `DextTags.AddKeepsDistinct` | Source/DEXT/iSCSIDextHBA.cpp:115-140 | accepting a task keeps active tags distinct if and only if the table is full or the next tag is not in use |
| `DextTags.TagInUseIff` | Source/DEXT/iSCSIDextHBA.cpp:172-181 | the next tag is in use if and only if an active task is a whole number of cycles old |
| `DextTags.TagsDistinctIff` | Source/DEXT/iSCSIDextHBA.cpp:115-181 | active tags are distinct all through a run if and only if no acceptance finds the counter back at an active task |
| `DextTags.TagsInRange` | Source/DEXT/iSCSIDextHBA.cpp:172-181 | in every run all active tags lie in [0x80000000, 0xFFFFFFFE] |
| `DextTags.AbortClearsFirst` | Source/DEXT/iSCSIDextHBA.cpp:668-709 | aborting one task clears exactly the first slot whose task is of the target, goes by the controller's identifier, and has an action |
| `DextTags.YoungRunsRefine` | Source/DEXT/iSCSIDextHBA.cpp:115-181 | from an empty table, if no task outlives 0x7FFFFFFF acceptances, tags stay distinct and the run is a run of a map from tag to task |
| `DextTags.AbortClearsMatching` | Source/DEXT/iSCSIDextHBA.cpp:724-751 | aborting a task set or resetting clears exactly the slots whose task is of the target, of the unit if one is named, and has an action |
| `DextTags.UnregisterClearsTarget` | Source/DEXT/iSCSIDextUserClient.cpp:185-189 | unregistering clears exactly the target's slots, touching no other, if and only if no other target's task sits in front of one of them with the same tag |
| `DextTags.MapSize` | Source/DEXT/iSCSIDextHBA.cpp:115-140 | the map has as many tasks as there are active slots, and is full exactly when no slot is free |
| `DextTags.StepRefines` | Source/DEXT/iSCSIDextHBA.cpp:142-170 | with distinct tags every scan of the 256 slots is the corresponding look-up, insertion or removal on the map |
| `DextTags.RunRefines` | Source/DEXT/iSCSIDextHBA.cpp:115-181 | so is every run in which the counter never comes back to an active task |
| `DextTags.TagReused` | Source/DEXT/iSCSIDextHBA.cpp:172-181 | a run in which a task outlives the cycle ends with two active tasks of one tag |
| `DextTags.UnregisterDropsForeign` | Source/DEXT/iSCSIDextUserClient.cpp:184-189 | after such a run with an old task of another target, unregistering drops the task of that other target and leaves its own |
| `DextTable.PendingTasks.NextTaskTag` | Source/DEXT/iSCSIDextHBA.cpp:172-181 | hands out the counter and advances it past the reserved values |
| `DextTable.PendingTasks.AddPendingTask` | Source/DEXT/iSCSIDextHBA.cpp:115-140 | fills the first free slot with a fresh tag and retains the action, or returns -1 and changes nothing, exactly when all 256 slots are taken |
| `DextTable.PendingTasks.Accept` | Source/DEXT/iSCSIDextHBA.cpp:595-605 | the same, with the controller's identifier stored afterwards |
| `DextTable.PendingTasks.RemovePendingTask` | Source/DEXT/iSCSIDextHBA.cpp:142-159 | empties the first slot with the tag and releases its action |
| `DextTable.PendingTasks.GetPendingTask` | Source/DEXT/iSCSIDextHBA.cpp:161-170 | finds the first slot with the tag |
| `DextTable.PendingTasks.ScsiResponse` | Source/DEXT/iSCSIDextUserClient.cpp:363-404 | completes and removes the task with the tag, or reports that there is none |
| `DextTable.PendingTasks.AbortTaskRequest` | Source/DEXT/iSCSIDextHBA.cpp:668-709 | settles the first task of the target with the controller's identifier |
| `DextTable.PendingTasks.AbortTasks` | Source/DEXT/iSCSIDextHBA.cpp:724-751 | the in-place loop settles every matching task and leaves the other slots |
| `DextTable.PendingTasks.UnregisterTarget` | Source/DEXT/iSCSIDextUserClient.cpp:184-189 | the loop removes by tag every task of the target it meets |
| `DextTable.PendingTasks.Close` | Source/DEXT/iSCSIDextUserClient.cpp:117-128 | the loop releases and drops every task |
| `DextOutgoing.EmptyConserved` | Source/DEXT/iSCSIDextHBA.cpp:57-59 | the queue starts out balanced, so that every run from the start is |
| `DextOutgoing.RunConserves` | Source/DEXT/iSCSIDextHBA.cpp:185-246 | over every run, what entered is exactly what is held, was handed over or was thrown away: nothing is lost, duplicated or invented |
| `DextOutgoing.StoredWholeIff` | Source/DEXT/iSCSIDextHBA.cpp:200-209 | a PDU goes through unaltered if and only if its payload has at most 65536 bytes; otherwise a prefix is kept |
| `DextOutgoing.FailsIff` | Source/DEXT/iSCSIDextHBA.cpp:185-230 | putting fails if and only if 64 PDUs are held, getting if and only if none is |
| `DextOutgoing.PutKeepsOrderIff` | Source/DEXT/iSCSIDextHBA.cpp:190-213 | a put keeps the slots in order of arrival if and only if no PDU waits behind the first free slot |
| `DextOutgoing.OrderIff` | Source/DEXT/iSCSIDextHBA.cpp:185-230 | the slots stay in order all through a run if and only if no PDU is ever put in front of a waiting one |
| `DextOutgoing.HandsInOrderIff` | Source/DEXT/iSCSIDextHBA.cpp:216-230 | a queue that has handed over in order so far goes on doing so, however long the daemon keeps asking, if and only if its slots are in order |
| `DextOutgoing.HandOverIff` | Source/DEXT/iSCSIDextHBA.cpp:185-230 | at every point of a run the daemon is served in the order in which PDUs were put in, however long it keeps asking, if and only if no PDU is ever put in front of a waiting one |
| `DextOutgoing.BatchInOrder` | Source/DEXT/iSCSIDextHBA.cpp:185-230 | a batch of up to 64 PDUs put into an empty queue comes out in order |
| `DextOutgoing.SecondCanStarve` | Source/DEXT/iSCSIDextHBA.cpp:185-230 | put A, put B, get, put C: C comes out before B; and for every n there is a run with n gets in which B still waits |
| `DextOutgoing.OutgoingQueue.EnqueuePdu` | Source/DEXT/iSCSIDextHBA.cpp:185-214 | stores the PDU in the first free slot, or returns false exactly when 64 are held |
| `DextOutgoing.OutgoingQueue.DequeuePdu` | Source/DEXT/iSCSIDextHBA.cpp:216-230 | takes the first active PDU out, or fails exactly when there is none |
| `DextOutgoing.OutgoingQueue.GetNextPdu` | Source/DEXT/iSCSIDextUserClient.cpp:585-641 | hands the PDU to the daemon, or throws it away when the daemon's buffer is too small |
| `DextOutgoing.OutgoingQueue.Count` | Source/DEXT/iSCSIDextHBA.cpp:248-255 | counts the PDUs held |
| `DextOutgoing.OutgoingQueue.FreeAll` | Source/DEXT/iSCSIDextHBA.cpp:241-246 | throws all of them away |
| `DextHba.CommandHeaderReadsBack` | Source/DEXT/iSCSIPDUEncoding.cpp:93-108 | byte for byte: tag, command number and acknowledged number in bytes 16 to 19, 24 to 27 and 28 to 31, in network order, and the rest as the request has it |
| `DextHba.AnswerFindsItsTask` | Source/DEXT/iSCSIDextUserClient.cpp:363-404 | a response whose bytes 16 to 19 are those of the command just queued undoes the acceptance in the table if and only if no task in front of the new one holds that tag; then that task is the one completed |
| `DextHba.Hba.ProcessParallelTask` | Source/DEXT/iSCSIDextHBA.cpp:551-641 | rejected without a session or with a full table; otherwise accepted into the first free slot and one command number used, and unless 64 PDUs are held, the PDU that enters the queue goes to the session of the target, with the tag of that slot and the numbers of the session in its header and the rest of the header as requested |
| `DextHba.NopOutReadsBack` | Source/DEXT/iSCSIPDUEncoding.cpp:168-199 | a NOP-Out byte for byte: opcode, flag, both tags, command number, acknowledged number, zeros elsewhere |
| `DextHba.Hba.AnswerPing` | Source/DEXT/iSCSIDextUserClient.cpp:525-571 | unless 64 PDUs are held, the answer to a ping enters the queue with both tags of the ping and the next command number of its session, which is used up in any case; without a session it carries 0 |
| `DextHba.Hba.IncomingScsiResponse` | Source/DEXT/iSCSIDextUserClient.cpp:328-404 | settles the task named by the tag in the header's bytes 16 to 19 |
| `DextHba.Hba.RegisterSession` | Source/DEXT/iSCSIDextUserClient.cpp:136-171 | opens the target's session with the given numbers, or changes nothing |
| `DextHba.Hba.UnregisterSession` | Source/DEXT/iSCSIDextUserClient.cpp:173-192 | closes the session and drops its tasks, and with distinct tags no others; queued PDUs stay |
| `DextHba.Hba.Close` | Source/DEXT/iSCSIDextUserClient.cpp:109-132 | closes all sessions, drops all tasks and all queued PDUs |
| `DextNumbering.HandsOutAll` | Source/DEXT/iSCSIDextHBA.cpp:216-230 | a daemon that keeps asking is handed what the queue holds, from front to back |
| `DextNumbering.StepServedIff` | Source/DEXT/iSCSIDextHBA.cpp:606-636 | each event keeps that such a daemon gets a PDU for every number a session has used, in order, if and only if it does not break the sequence: a numbered PDU of the session meets a full queue, is put in front of a waiting one of the session, or is thrown away |
| `DextNumbering.ServedIffNeverBreaks` | Source/DEXT/iSCSIDextHBA.cpp:606-636 | so does every run within the life of a session, if and only if no event of it breaks the sequence |
| `DextNumbering.NumbersConsecutive` | Source/DEXT/iSCSIDextHBA.cpp:606-636 | from registration on, after every such run, the numbers of the session handed to the daemon are the first one and the following, one after the other, modulo 2^32 |

## Left out

- `WriteTask.WholeWrite`: no R2T asks for bytes past offset 2^32, and no send fails; what a failed send leaves is stated by `WriteTransfer.AmountIsPrefix` and `WriteTransfer.ProcessDataOutForTask`.
- `WriteTask.BeginTask`: does not model the look-up of the task and the latency-probe branch, because both are calls into the driver stack or clocks; the command block arrives as 16 bytes and the attribute as its flag bits.
- `WriteTask.ProcessR2T`: the look-up of the task by tag is a comparison with the one task at hand.
- `WriteTask.AnswersCover`: requires that no R2T asks for bytes past offset 2^32, where the 32-bit offsets wrap around.
- `WriteTask.WriteCoverage`: the same.
- `WriteTask.AnswerR2Ts`: what handlers other than the one for R2Ts do between two answers is not modelled beyond what they read; PDUs that are not intact or not read whole are `PduStream.StaysOnBoundary`. It requires that its loops end: with a segment limit of 0, one failing send for each R2T that asks for something.
- `WriteTask.PerformWrite`: the same.
- `Transport.SendPDU`: does not model partial sends, nor is the handler it calls after a failed send part of its contract (the handler itself is `VirtualHba.Hba.HandleConnectionTimeout`); the header is a value that is stamped, not a structure overwritten in place. CmdSN starts at 0, as no kernel code sets it otherwise.
- `Transport.RecvPDUHeader`: does not model socket errors other than a stream that runs dry and gives fewer bytes.
- `Transport.RecvPDUData`: the same.
- `Transport.AnswerPing`: the data of the ping is a parameter, which `Transport.ProcessIncoming` reads; a NOP-In with the reserved transfer tag is the answer to a probe, `VirtualHba.Hba.ProcessHeadAnswer`.
- `Transport.ProcessIncoming`: states where each handler leaves the stream and what its header does to the numbers, not what else it does.
- `VirtualHba.Hba.ActivateConnection`: requires identifiers in range, because the code checks only for two reserved values and then indexes its arrays, where the language defines no outcome.
- `VirtualHba.Hba.ActivateAllConnections`: the same.
- `VirtualHba.Hba.ProcessParallelTask`: the same of the target identifier.
- `VirtualHba.Hba.CreateConnection`: which resource is missing is a parameter, because allocation, event sources and the socket are foreign calls.
- `VirtualHba.Hba.CreateSession`: the same, and whether there is memory for the session.
- `VirtualHba.Hba.ProcessSCSIResponse`: status, sense data and realised counts of the report are not modelled; a Data-In with status ends its task in the same way.
- `TaskLife.SettledIffFresh`: outstanding tasks are a set of tags, so of two tasks with one tag the second is forgotten, where the driver stack keeps both and finds either.
- `DextHba.Hba.ProcessParallelTask`: the header bytes built from the request alone (flags, unit, length, command block) are a parameter; data buffers are not modelled, because the look-up that should fill them finds none. The model does not raise ExpCmdSN of a session, which the code does on a SCSI response.
- `DextTable.PendingTasks.ScsiResponse`: does not model the status, sense data and residual passed to the driver framework, nor the session's window numbers. The parser reads StatSN, ExpCmdSN and MaxCmdSN four bytes behind the places section 10.4 of RFC 3720 gives them.
- `DextOutgoing.OutgoingQueue.EnqueuePdu`: assumes that allocating the copy of the payload succeeds.
- `DextOutgoing.OutgoingQueue.GetNextPdu`: too small a buffer and a failed allocation are one flag, because the code treats them alike.
- `DextHba.Hba.IncomingScsiResponse`: window numbers and what is passed on to the framework are not modelled.
- `DextHba.Hba.AnswerPing`: a NOP-In with the reserved transfer tag, which is consumed without an answer, does not come to it.
- `DextHba.Hba.RegisterSession`: of a session only activity, identifier and numbers are modelled.
- `Crc32cEngine.Engine.Fast`: the null buffer, which returns the seed like an empty one, is not modelled.
- The older copy in `Source/Shared/crc32c.c` holds the three-way form only and is modelled once, with the kernel's file.
- Thread interleaving inside one operation of the task queue: each operation is one atomic step.
- Bandwidth and latency values, clocks, floating point, and the choice of a connection for a task, which the code overwrites.
- Data-In and R2T handling in the driver extension, whose data buffer is never set.
- The command window: the code compares with plain `>` and never checks it.
- Login, CHAP, negotiation, the daemon, preferences, keychain and user-client parameter setters: plumbing over libraries that are not part of this model.
- The PDU builders and parsers of the driver extension beyond the fields above: straight-line field accesses.
