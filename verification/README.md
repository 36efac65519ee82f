# A verified model of the exchange

This project models the parts of the exchange where correctness is hardest to see, and proves what they promise.

* **Matching.** `PriceTime` says what matching is for, over an unordered map of resting orders. `PriceTimeTheorems`
  proves what follows over every run: price-time priority, conservation of quantity, an uncrossed and bounded book.
  `CommandOutcomes` says what one order or cancel does in terms of the message and the resting orders alone.
  `BookIndex` and `MatchingEngine` hold the real structures, with list nodes shared between the price levels and the
  order index, and prove that every operation of the engine does what the specification says.
* **The journal.** `Bytes`, `JournalFrame`, `CommandCodec`, `CommandEncoder` and `HeaderCodec` are the formats, the
  checksum (CRC32C as in section 12.1 of RFC 3720) and their inverse, and `JournalLayout` says which field stands where.
  `JournalFile` is the file as a value. `StorageFile`, `JournalReader`, `JournalWriter` and `JournalRecovery` are the code
  that reads, appends and repairs it through short operations, interrupts and failures. `Replay`, `AdmissionRecovery` and
  `RecoveredRun` rebuild a run from it.
* **The command path and the controller.** `Admission` and `RecordKeeping` are the admission index, `Stages` and
  `Delivery` relate neighbouring stages to the history of the run, `Pipeline` is the path from submission to delivery,
  and `Lifecycle` the controller with its durable catalog.
* **Delivery and the edges.** `ResultProjection` fans results out to clients and `ClientViews` says what each is told;
  `ApplicationJson` serializes them, `JsonReading` reads them back, `ApplicationGateway` routes them, and `EndToEnd`
  connects the two ends. `Bus` is the multicast ring under every interleaving, and `FixDecimal` parses prices and quantities.

State that the program updates in place is a class whose methods are proved against a specification; histories needed
only to say what happened are ghost fields. A branch in which the program throws because its own structures disagree holds
`assert false`: the proof that it cannot be reached. A throw that a caller can cause is a value of the result.

Three assumptions are preconditions, because the program relies on them without enforcing them. Every instrument of a
run header has a configuration in the matching engine (`Replay.KnowsInstruments`; today only instrument 1, version 1).
Submitted cancels carry order id 0. The operating system behaves as a script of outcomes for each call, finitely many of
them out of the ordinary, so that retrying an interrupted call ends.
`PriceTimeTheorems.ThrowsExactlyWhen` says exactly when matching throws where the first two do not hold, and `ThrownInputs`
names inputs; `Pipeline.JournalableIff` says which accepted messages stop a run at its next append.

Checking the whole project: `dafny verify dfyconfig.toml`.

## Model

| member | source | states |
|---|---|---|
| PriceTime.FillStep | matching_engine/src/matching_engine.cpp:436-479 | the greedy fill is determined: any order that is best and crosses is the one traded with next |
| PriceTimeTheorems.PriceTimePriority | matching_engine/src/matching_engine.cpp:383-434 | the trades of an order are the greedy fill of any list of the opposite orders sorted best price first, then by order id, up to the limit |
| PriceTimeTheorems.PriorityQueueExists | matching_engine/src/matching_engine.cpp:383-434 | every book has such a sorted list for each side of each instrument |
| PriceTimeTheorems.TradesInPriorityOrder | matching_engine/src/matching_engine.cpp:383-479 | every trade is at its maker's price and names its two clients and orders in their own roles, makers are consumed in strict priority order, and only the last can be left partly filled |
| PriceTimeTheorems.FillExhausts | matching_engine/src/matching_engine.cpp:383-434 | what remains after a fill no longer crosses any opposite order |
| PriceTimeTheorems.FillTakesAllThatCrosses | matching_engine/src/matching_engine.cpp:383-434 | an order's remainder is its quantity less the total quantity crossing it, and an order that keeps a remainder traded with each crossing order exactly once |
| PriceTimeTheorems.FillTotals | matching_engine/src/matching_engine.cpp:436-479 | the quantity taken from the book is the quantity traded, and is what the taker no longer has |
| PriceTimeTheorems.ApplyKeepsSound | matching_engine/src/matching_engine.cpp:207-261 | one command keeps the book positive, uncrossed, within its level limit and numbered below the next sequence |
| PriceTimeTheorems.ApplyConserves | matching_engine/src/matching_engine.cpp:166-261 | one command conserves quantity between the order, its trades, cancellations and the book |
| PriceTimeTheorems.BatchShape | matching_engine/src/matching_engine.cpp:138-142 | a result has one to 4096 events with indices 0..n-1 of its own command, all but the last of them trades, and is correlated to its command |
| PriceTimeTheorems.ThrowsExactlyWhen | matching_engine/src/matching_engine.cpp:138-296 | matching throws exactly on: missing identification, an unsupported type or time in force, an order id that already rests, a malformed or misaddressed cancel, or a good-till-cancel order of an unknown configuration whose quantity exceeds everything that crosses it (fewer than 4096 orders); all judged from the message and the resting orders, before any matching |
| PriceTimeTheorems.ThrownInputs | matching_engine/src/matching_engine.cpp:166-274 | two identified commands matching throws on: a good-till-cancel order of an unconfigured instrument on an empty book, and a cancel with an order id of its own |
| PriceTimeTheorems.AdmissibleNeverThrows | matching_engine/src/matching_engine.cpp:184-272 | a sequenced command for a known instrument, with a cancel carrying no order id, never makes matching throw |
| PriceTimeTheorems.RunIsSound | matching_engine/src/matching_engine.cpp:138-142 | every run of admissible, consecutively numbered commands succeeds and keeps the book sound throughout |
| PriceTimeTheorems.RunConserves | matching_engine/src/matching_engine.cpp:166-261 | over every run, applied quantity equals twice the traded quantity plus everything cancelled plus what still rests |
| PriceTimeTheorems.RunPrefix | matching_engine/src/matching_engine.cpp:138-142 | the results of a prefix of the commands are a prefix of the results |
| CommandOutcomes.CrossingQueueIs | matching_engine/src/matching_engine.cpp:383-434 | a list is the queue an order trades along exactly when it holds the opposite orders of its instrument whose price it meets, best price first and then by order id |
| CommandOutcomes.CrossingQueueExists | matching_engine/src/matching_engine.cpp:383-434 | every order has such a queue over every book |
| CommandOutcomes.HeldIsAvailable | matching_engine/src/matching_engine.cpp:481-515 | that queue holds every crossing order and all the crossing quantity |
| CommandOutcomes.FillTrades | matching_engine/src/matching_engine.cpp:436-479 | trade k is with order k of the queue, names both clients, orders and sides in their own roles, carries the maker's price and instrument, takes what is still wanted or all the maker has, and states exactly what each is left with |
| CommandOutcomes.FillCount | matching_engine/src/matching_engine.cpp:481-515 | just as many orders trade as it takes to hold the quantity wanted, or all of them |
| CommandOutcomes.FillBook | matching_engine/src/matching_engine.cpp:436-566 | the book holds each maker with what its trade says is left, none that is used up, and every other order unchanged |
| CommandOutcomes.NewOrderOutcome | matching_engine/src/matching_engine.cpp:207-261 | a new order is refused exactly when it would need more than 4096 events or what is left of a good-till-cancel order would overfill its level, and then nothing changes; otherwise it trades the crossing quantity it wants, an immediate-or-cancel remainder is cancelled as such, and a good-till-cancel remainder rests under its own id with the sender's fields |
| CommandOutcomes.CancelOutcome | matching_engine/src/matching_engine.cpp:166-205 | a cancel removes the named order exactly when it rests, is the sender's and is on the named instrument, keeps every other order, and answers not-active, not-owner or the cancelled order with its own owner, instrument and quantity |
| BookIndex.TotalIsAggregate | matching_engine/src/matching_engine.cpp:263-296 | a level's stored total is the quantity resting at that price, side and instrument |
| BookIndex.ReduceKeeps | matching_engine/src/matching_engine.cpp:436-479 | reducing a node, its index entry and its level total together keeps book and index in agreement |
| BookIndex.RemoveKeeps | matching_engine/src/matching_engine.cpp:517-625 | unlinking a node, its entry, and the level and book it leaves empty keeps book and index in agreement |
| BookIndex.AddKeeps | matching_engine/src/matching_engine.cpp:337-381 | appending a node with the largest id at its level, with its entry, keeps book and index in agreement |
| BookIndex.WhereIs | matching_engine/src/matching_engine.cpp:517-625 | every index entry points at the one list node that carries its id |
| MatchingEngine.MatchingState.PlanMatches | matching_engine/src/matching_engine.cpp:481-515 | the plan, made without mutation, predicts the exact remainder and trade count of the fill |
| MatchingEngine.MatchingState.ExecuteTrade | matching_engine/src/matching_engine.cpp:436-479 | one trade is the specification's next trade, whose fields `CommandOutcomes.FillTrades` gives, and book, index and node stay in agreement |
| MatchingEngine.MatchingState.RemoveFilledOrder | matching_engine/src/matching_engine.cpp:517-566 | a filled order leaves list, level, book and index together; no consistency check can fail |
| MatchingEngine.MatchingState.MatchOrder | matching_engine/src/matching_engine.cpp:383-434 | the mutating loop performs exactly the greedy fill |
| MatchingEngine.MatchingState.CanAddOrder | matching_engine/src/matching_engine.cpp:263-296 | the capacity verdict compares the level's resting quantity plus the remainder with the configured maximum |
| MatchingEngine.MatchingState.AddOrder | matching_engine/src/matching_engine.cpp:337-381 | a remainder that fits is added to the resting orders, one that does not changes nothing |
| MatchingEngine.MatchingState.RemoveCancelledOrder | matching_engine/src/matching_engine.cpp:568-625 | a cancelled order leaves list, level, book and index together |
| MatchingEngine.MatchingState.ProcessOrder | matching_engine/src/matching_engine.cpp:207-261 | a new order is applied or rejected as specified, with the outcome `CommandOutcomes.NewOrderOutcome` gives; a rejection or throw leaves the books, the index and the quantity in every node as they were, and the plan never diverges from execution |
| MatchingEngine.MatchingState.ProcessCancel | matching_engine/src/matching_engine.cpp:166-205 | a cancel is applied, rejected or thrown on as specified, with the outcome `CommandOutcomes.CancelOutcome` gives |
| MatchingEngine.MatchingState.ProcessCommand | matching_engine/src/matching_engine.cpp:138-142 | the pointer structures refine the specification: same reply, same resting orders, same throw; whatever is rejected or throws changes no field of the engine and no node |
| MatchingEngine.MatchingState.VerdictSurvivesMatching | matching_engine/src/matching_engine.cpp:207-261 | the capacity check made before matching still holds after it |
| MatchingEngine.MatchingState.InvariantsHold | matching_engine/src/matching_engine.cpp:663-702 | the self-check accepts every state the engine can be in, and what it accepts has every node indexed where it is, every total equal to its sum, nothing empty, and as many nodes as entries |
| LittleEndian.DecodeEncode | core/storage/src/little_endian.hpp:9-52 | reading back a written number of any width gives the number |
| LittleEndian.EncodeDecode | core/storage/src/little_endian.hpp:9-52 | writing back a read number gives the bytes |
| LittleEndian.EncodeAt | core/storage/src/little_endian.hpp:9-28 | byte k of a written number is the number shifted right by 8k bits, modulo 256 |
| LittleEndian.Write | core/storage/src/little_endian.hpp:9-28 | the write loop places the number at its offset and touches nothing else |
| LittleEndian.Read | core/storage/src/little_endian.hpp:30-52 | the read loop accumulates the number at its offset |
| Crc32c.Accumulator.Feed | core/storage/src/crc32c.cpp:12-20 | feeding bytes advances the state by the byte-wise polynomial step |
| Crc32c.UpdateConcat | core/storage/src/crc32c.cpp:12-20 | feeding in pieces is feeding at once |
| Crc32c.UpdateInjectiveInState | core/storage/src/crc32c.cpp:12-20 | the step is injective in the state, so a difference never disappears |
| Crc32c.OneByteChangesChecksum | core/storage/src/crc32c.cpp:12-24 | two inputs that differ in exactly one byte never share a checksum |
| Crc32c.CheckValue | core/storage/src/crc32c.cpp:12-24 | the checksum of the nine digits 123456789 is the published check value of CRC-32C |
| JournalFrame.FrameFromFields | core/storage/src/journal_v1_envelope.hpp:16-58 | a byte string with the right head fields and checksum is the frame of its payload |
| CommandCodec.DecodeOfEncode | core/storage/src/journal_command_codec.cpp:166-442 | decoding an encoded command gives the command |
| CommandCodec.EncodeOfDecode | core/storage/src/journal_command_codec.cpp:166-442 | whatever decodes is the encoding of what it decoded to |
| CommandCodec.PayloadSize | core/storage/src/journal_command_codec.cpp:166-380 | the size of a record depends only on its type and the length of the client command id |
| CommandEncoder.EncodeCommand | core/storage/src/journal_command_codec.cpp:166-380 | the encoder, writing into its buffer in place, refuses exactly the commands it must and otherwise produces their record |
| HeaderCodec.ValidateHeader | core/storage/src/journal_run_header_codec.cpp:27-65 | a header is accepted exactly when every field is in range and instruments strictly increase |
| HeaderCodec.HeaderDecodeOfEncode | core/storage/src/journal_run_header_codec.cpp:69-204 | decoding an encoded header gives the header |
| HeaderCodec.HeaderEncodeOfDecode | core/storage/src/journal_run_header_codec.cpp:69-204 | whatever decodes as a header is the encoding of what it decoded to |
| HeaderCodec.EncodeHeader | core/storage/src/journal_run_header_codec.cpp:69-114 | the encoder refuses exactly the headers it must and otherwise produces their frame |
| JournalLayout.RecordLayout | core/storage/src/journal_command_codec.cpp:166-380 | each field of a command stands at its own byte offset of the record, little-endian, with its own width and code |
| JournalLayout.MessageLayout | sequencer/src/sequencer.cpp:128-177 | the record a message is journaled as holds each field of the message at that offset |
| JournalLayout.HeaderLayout | core/storage/src/journal_run_header_codec.cpp:69-114 | the limits of a run and each of its instruments stand at their own offsets of the header record |
| JournalLayout.EnvelopeAccepted | core/storage/src/journal_v1_envelope.hpp:16-58 | which 36 bytes are taken for the envelope of a command, number by number |
| JournalFile.IntactIff | core/storage/src/run_journal_reader.cpp:140-283 | a file is valid exactly when it is the header followed by commands in context, numbered 1..n, within both capacities; then it loads as those |
| JournalFile.TailIff | core/storage/src/run_journal_reader.cpp:188-281 | a file is taken for a torn journal exactly when it is a journal followed by less than an envelope, or by an envelope in order for the next command that announces more than there is, within both limits |
| JournalFile.ListedIffConfigured | core/storage/src/run_journal_reader.cpp:99-109 | the sorted lookup finds exactly the configurations the header lists |
| JournalFile.LoadedIsPrinted | core/storage/src/run_journal_reader.cpp:140-283 | whatever loads, whole or torn, starts with the printed form of what was loaded |
| JournalFile.JournalInjective | core/storage/src/run_journal_reader.cpp:140-283 | no file is the journal of two different runs |
| JournalFile.CrashConsistency | core/storage/src/run_journal_reader.cpp:188-281 | any prefix of a frame behind a committed journal loads as the committed commands, those plus the complete frame, or a tail at the committed offset |
| JournalFile.TruncationRepairs | core/storage/src/run_journal_recovery.cpp:178-207 | cutting a torn file at the reported offset leaves a valid journal of the same commands |
| JournalFile.OneDamagedByte | core/storage/src/run_journal_reader.cpp:151-265 | changing any single byte of any journal is answered with corruption, never accepted and never taken for a tail |
| JournalReader.ReadSome | core/storage/src/run_journal_reader.cpp:61-76 | a read retries interrupts and returns the next bytes of the file, or none at its end |
| JournalReader.ReadExact | core/storage/src/run_journal_reader.cpp:78-92 | a buffer is filled from consecutive short reads unless the file ends first |
| JournalReader.ReadHeader | core/storage/src/run_journal_reader.cpp:140-186 | reading the header envelope first gives what parsing the whole file gives |
| JournalReader.ReadCommand | core/storage/src/run_journal_reader.cpp:188-281 | one turn of the loop, with all its checks, gives the next step of parsing the whole file |
| JournalReader.ReadJournal | core/storage/src/run_journal_reader.cpp:140-283 | however the reads are chunked or interrupted, a completed load is the parse of the file, and without a read error the load completes |
| StorageFile.Sync | core/storage/src/run_journal_recovery.cpp:92-102 | synchronising retries interrupts, ends, and fails only if the system reports a failure |
| StorageFile.Seek | core/storage/src/run_journal_recovery.cpp:58-71 | seeking retries interrupts, succeeds only at the requested offset, and fails only if the system reports a failure or another position |
| JournalWriter.WriteAll | core/storage/src/run_journal_writer.cpp:173-190 | through short writes, interrupts and errors, every content on the way is the old file and a leading part of the frame |
| JournalWriter.FitsOneMore | core/storage/src/run_journal_writer.cpp:165-171 | a command in context fits exactly when both capacities have room for it |
| JournalWriter.JournalOutgrowsCount | core/storage/src/run_journal_writer.cpp:200-206 | the byte limit bounds the sequence number, which therefore never overflows |
| JournalWriter.CrashAnywhere | core/storage/src/run_journal_writer.cpp:165-207 | any leading part of an attempted journal that holds the header loads as exactly the commands with complete frames; the rest is a tail at that offset |
| JournalWriter.CrashAtAnyMoment | core/storage/src/run_journal_writer.cpp:165-207 | at every content a writer's file ever had, with the number of commands committed at that moment on record, the file loads as exactly those commands, or as those and the one in flight, with any torn frame a tail at the committed offset |
| JournalWriter.ReopensAsCommitted | core/storage/src/run_journal_writer.cpp:165-207 | the file a writer leaves loads as the committed commands, or as those and the one whose append failed |
| JournalWriter.Writer.ProspectiveFrameSize | core/storage/src/run_journal_writer.cpp:116-140 | a size is known exactly for the commands an append would not refuse as invalid, and is the size the append adds |
| JournalWriter.Writer.Append | core/storage/src/run_journal_writer.cpp:68-114 | an append commits, refuses without touching the file for exactly the stated reasons, or leaves the writer unusable with a leading part of exactly this frame; short writes and interrupts alone never prevent a commit; every content is recorded with what was committed when it appeared |
| JournalWriter.Writer.AppendEncoded | core/storage/src/run_journal_writer.cpp:165-207 | the capacity checks refuse exactly what would no longer fit |
| JournalRecovery.ReadTail | core/storage/src/run_journal_recovery.cpp:73-90 | the tail is read whole or an error is reported |
| JournalRecovery.CutTail | core/storage/src/run_journal_recovery.cpp:178-206 | the tail is preserved before it is cut; a failure before that leaves the file untouched |
| JournalRecovery.Prepare | core/storage/src/run_journal_recovery.cpp:123-230 | a prepared journal has a writer right behind the commands that load and the file plus the preserved tail is the original; otherwise it still loads as the same run; over short reads and interrupts the outcome is determined by what the file holds, except that an interrupted truncation or close, which the program does not retry, is reported as such |
| Replay.JournalKeepsEffect | matching_engine/src/run_journal_replay.cpp:33-58 | a live message and the one replayed from its record differ only where matching does not look |
| Replay.ApplyKeepsEffect | matching_engine/src/run_journal_replay.cpp:33-58 | matching cannot tell such messages apart |
| Replay.RunKeepsEffect | matching_engine/src/run_journal_replay.cpp:77-117 | nor can a whole run |
| Replay.JournalReplays | matching_engine/src/run_journal_replay.cpp:77-117 | every journal that loads replays without a throw, into a sound book |
| Replay.ReplayJournal | matching_engine/src/run_journal_replay.cpp:77-117 | a replayed journal yields exactly the run of its commands, and every journal that loads is replayed |
| Admission.AdmissionIndex.ReserveAndStage | core/admission/src/command_admission.cpp:60-139 | a first submission is recorded and staged together under exactly the stated conditions; a known identity is answered by its record, as identical or conflicting in the sense of `KeyAndBusinessDecide`; nothing else changes anything |
| Admission.AdmissionIndex.MarkSequenced | core/admission/src/command_admission.cpp:146-173 | a reservation is marked exactly when it is open and for the same command |
| Admission.AdmissionIndex.Complete | core/admission/src/command_admission.cpp:175-203 | a record is completed exactly when it is sequenced under the result's own number and run |
| Admission.AdmissionIndex.CompletedResult | core/admission/src/command_admission.cpp:205-217 | the stored result of an identical completed command, and nothing for anything else |
| Admission.IdentifiedIff | core/admission/src/command_admission.cpp:245-292 | which messages carry everything admission needs, field by field |
| Admission.KeyAndBusinessDecide | core/admission/src/command_admission.cpp:245-292 | two messages share an identity exactly when client and command id agree, and are the same command exactly when kind and instrument agree and, for an order, configuration, price, quantity and time in force, for a cancel, the target |
| RecordKeeping.RecordSubmission | core/admission/src/command_admission.cpp:112-139 | a first submission adds one reserved record and keeps the rest in place |
| RecordKeeping.RecordSequenced | core/admission/src/command_admission.cpp:146-173 | the oldest reservation is open for its command, and marking it keeps the index in acceptance order |
| RecordKeeping.RecordCompleted | core/admission/src/command_admission.cpp:175-203 | the oldest sequenced record awaits the next result, and completing it keeps the index in acceptance order |
| RecordKeeping.RecordsAreDetermined | core/admission/src/command_admission_recovery.cpp:113-174 | the records are determined by the accepted commands and their results |
| AdmissionRecovery.ValidateResult | core/admission/src/command_admission_recovery.cpp:83-109 | a result is accepted exactly when it is correlated to its command and its events are numbered from zero |
| AdmissionRecovery.ResultAt | core/admission/src/command_admission_recovery.cpp:83-109 | every replayed result of a journal that loads passes that validation |
| AdmissionRecovery.ReconstructAdmissionIndex | core/admission/src/command_admission_recovery.cpp:113-174 | the rebuilt index has one completed record per command; a journal that loads is refused exactly when two of its commands share an identity |
| RecoveredRun.ConfiguredRunExists | core/instrument/include/instrument_config.hpp:22-42 | the one configured instrument makes a run header that meets the assumptions made here |
| RecoveredRun.QuiescentStages | core/recovery/src/recovered_run.cpp:10-56 | a recovered run satisfies every relation between pipeline stages with nothing in flight |
| RecoveredRun.RecoverRun | core/recovery/src/recovered_run.cpp:10-56 | recovery gives the run the file holds, at rest behind a writer that continues it, never loses a command the file holds, and always succeeds on a file that loads when no call fails, no identity repeats and, for a torn file only, no call is interrupted |
| Stages.NumberDoesNotMatter | core/recovery/src/controller_command_processing.cpp:182-218 | whether and how large a command is journaled does not depend on its number, so the prospective size is the appended size |
| Stages.NextFits | sequencer/src/sequencer.cpp:72-104 | room was set aside for the oldest waiting command, so its append never finds the journal full |
| Stages.NextMatches | matching_engine/src/matching_engine.cpp:138-142 | matching the next sequenced command succeeds with one to 4096 events correlated to it |
| Stages.ReplayEqualsLive | matching_engine/src/run_journal_replay.cpp:77-117 | the live results are a prefix of the replayed ones, and the books agree once matching has caught up |
| Delivery.DispatchNext | core/recovery/src/controller_command_processing.cpp:32-59 | taking up a result keeps the record of what was handed over complete and in order |
| Delivery.HandPrivate | core/recovery/src/controller_command_processing.cpp:48-50 | handing over a fan-out adds it once, in order |
| Delivery.HandPublic | core/recovery/src/controller_command_processing.cpp:51-53 | handing over public trades adds them once, in order, as the one batch of their result |
| Pipeline.CommandPath.AppendCommand | sequencer/src/sequencer.cpp:128-177 | a message without a journal form is invalid; any other is appended as its own command, and is the only thing a failed append can leave in the file |
| Pipeline.CommandPath.NeverFull | sequencer/src/sequencer.cpp:72-104 | the journal never answers an append of an accepted command with capacity reached |
| Pipeline.CommandPath.AppendNext | sequencer/src/sequencer.cpp:86-101 | the oldest staged command gets the next number and is durable before anything else sees it; over storage that works its append fails exactly if the journal has no form for it |
| Pipeline.CommandPath.MarkPending | sequencer/src/sequencer.cpp:102-113 | marking a committed command never fails |
| Pipeline.CommandPath.ProcessNext | sequencer/src/sequencer.cpp:72-126 | each step moves one command forward or reports why nothing can move |
| Pipeline.CommandPath.AdvanceSequencer | sequencer/src/sequencer.cpp:64-70 | the drain loop ends with a failure, an empty queue or a full matching queue |
| Pipeline.CommandPath.AccountJournalProgress | core/recovery/src/controller_command_processing.cpp:464-476 | the waiting counters always cover what the journal gained |
| Pipeline.CommandPath.MatchFront | matching_engine/src/matching_engine.cpp:112-121 | the engine never throws on what the sequencer sends it, and its result joins the history in order |
| Pipeline.CommandPath.AdvanceMatcher | matching_engine/src/matching_engine.cpp:101-125 | matching drains its queue until it is empty or the result queue is full |
| Pipeline.CommandPath.TakeUpResult | core/admission/src/admission_completion_consumer.cpp:33-50 | completing the oldest result never fails, and it is projected for every client it affects |
| Pipeline.CommandPath.AdvanceDispatcher | core/recovery/src/controller_command_processing.cpp:32-59 | the dispatcher makes progress unless there is nothing to deliver or a delivery queue still holds results |
| Pipeline.CommandPath.PendingIsSmall | core/recovery/src/controller_command_processing.cpp:130-144 | one fan-out always fits an empty delivery queue |
| Pipeline.CommandPath.Cycle | core/recovery/src/controller_command_processing.cpp:509-523 | a cycle that progresses lowers the weighted load of everything in flight; one that does not finds the path drained or delivery blocked by unpopped results; over storage that works the only failing append is that of a command without a journal form |
| Pipeline.CommandPath.CommittedAreJournalable | sequencer/src/sequencer.cpp:128-177 | nothing without a journal form is ever committed, so an accepted command without one is where its run stops |
| Pipeline.JournalableIff | core/recovery/src/controller_command_processing.cpp:182-218 | an accepted message has a journal form exactly when the header lists its instrument and version and a new order is good-till-cancel or immediate-or-cancel |
| Pipeline.AcceptedWithoutForm | core/admission/src/command_admission.cpp:60-139 | admission does accept messages no journal has a form for: a fill-or-kill order is one |
| Pipeline.CommandPath.ProspectiveFrameSize | core/recovery/src/controller_command_processing.cpp:182-218 | the bytes a command would take, exactly for the commands the journal would take |
| Pipeline.CommandPath.CheckCapacity | core/recovery/src/controller_command_processing.cpp:309-325 | room is available exactly when both limits still hold with everything accepted and this command |
| Pipeline.CommandPath.Submit | core/recovery/src/controller_command_processing.cpp:308-341 | only a first submission is accepted, and every one for which there is journal room, an open gate and queue space is; its room is set aside; the first submission that closes admission is exactly a journalable one that uses up a limit, and finding a limit used up closes it too; a used identity is answered as a conflict if the accepted message with it asked for something else, and otherwise with that message's own result once it is completed |
| Pipeline.CommandPath.SubmitClosed | core/recovery/src/controller_command_processing.cpp:302-307 | with admission closed nothing is accepted, new identities are told why, and retransmissions are still answered from the history of the run |
| Pipeline.CommandPath.RetransmissionAnswers | core/admission/src/command_admission.cpp:64-92 | what the admission index answers to a used identity is decided by the accepted message that used it |
| Pipeline.CommandPath.TryPopPrivateResultBatch | core/recovery/src/controller_command_processing.cpp:590-592 | popping takes the oldest batch and keeps the event count exact |
| Pipeline.CommandPath.TryPopPublicTradeBatch | core/recovery/src/controller_command_processing.cpp:594-596 | popping takes the oldest batch and keeps the record count exact |
| Pipeline.CommandPath.EveryCommandInOneStage | sequencer/src/sequencer.cpp:72-126 | every accepted command sits in exactly one stage, in acceptance order, numbered without gaps, and matching sees only committed ones |
| Pipeline.CommandPath.CapacityIsNeverExceeded | core/recovery/src/controller_command_processing.cpp:309-340 | committed plus waiting commands equal the admission records and never exceed the command limit; committed plus waiting bytes never exceed the byte limit |
| Pipeline.CommandPath.RecoveryEqualsLive | matching_engine/src/run_journal_replay.cpp:77-117 | whatever the journal file of a running or failed path loads as, replaying it succeeds, the live results are a prefix of the replayed ones, and the replay passes through the live book once matching has caught up |
| Pipeline.CommandPath.FileHolds | core/storage/src/run_journal_writer.cpp:165-207 | the journal file of a path always loads, as the committed commands or as those and the one whose append failed; each is an accepted message, in acceptance order, numbered by its place |
| Pipeline.CommandPath.JournalKeysAreDistinct | core/admission/src/command_admission_recovery.cpp:158-170 | no two commands the journal file of a path loads as share an identity, so reconstruction always succeeds, also after a failed append |
| Pipeline.CommandPath.RestartKeepsResults | core/admission/src/command_admission.cpp:60-92 | the record of a completed command is the same in the live index and in any index rebuilt from the journal file |
| Pipeline.CommandPath.EveryResultSurvives | core/admission/src/command_admission_recovery.cpp:113-174 | every completed result of the live index is in the index rebuilt from the journal file, unchanged |
| Pipeline.CommandPath.DrainedRestartIsExact | core/admission/src/command_admission_recovery.cpp:113-174 | with nothing in flight, the rebuilt index is the live index |
| Pipeline.CommandPath.DrainedMeansDelivered | core/recovery/src/controller_command_processing.cpp:146-155 | with processing and hand-offs drained, everything accepted is committed, matched, completed and popped, to each client and, one batch for each result that traded, to the public |
| Lifecycle.Catalog.Replace | core/storage/src/run_catalog_storage.cpp:108-226 | a replacement is checked against the generation and is in the cell if committed, not if refused, perhaps if uncertain |
| Lifecycle.Controller.InstallCommandProcessing | core/recovery/src/controller_command_processing.cpp:279-291 | a path is installed exactly over a ready or paused run without one, with usable capacities |
| Lifecycle.Controller.SubmitCommand | core/recovery/src/controller_command_processing.cpp:293-341 | a command is accepted only by a ready run with open admission, for that run, and then exactly under the conditions of the path; otherwise the answer says why, or repeats the stored one |
| Lifecycle.Controller.AdvanceCommandProcessing | core/recovery/src/controller_command_processing.cpp:458-558 | a step keeps the controller's invariant, never reopens admission, and leaves the ready state only for a failure or a reached capacity, which it publishes whenever the catalog allows it |
| Lifecycle.Controller.PublishFailStopped | core/recovery/src/controller_command_processing.cpp:477-507 | a fail-stop is entered exactly with its catalog entry committed over the open one, and always if no catalog call fails |
| Lifecycle.Controller.ReachCapacity | core/recovery/src/controller_command_processing.cpp:521-548 | capacity is published only for a drained run and over its open entry, or the run becomes unavailable |
| Lifecycle.Controller.Drain | core/recovery/src/controller_command_processing.cpp:613-635 | the pause loop ends, and never with commands left and nothing to wait for |
| Lifecycle.Controller.PauseRun | core/recovery/src/controller_command_processing.cpp:600-667 | a paused run had admission closed first and its open entry replaced, and has nothing in flight and nothing undelivered; a pause fails only for an append failure, unpopped results or the catalog |
| Lifecycle.Controller.StopRun | core/recovery/src/controller_command_processing.cpp:669-782 | a stopped run lost no accepted command and no undelivered result, had the disposition its state requires, and a retained run is replaced only if it was named |
| Lifecycle.Controller.ResumeRun | core/recovery/src/exchange_run_controller.cpp:124-163 | admission opens only for a paused run with room in its journal, after the open catalog entry is committed over the paused one |
| Lifecycle.Controller.CloseAdmission | core/recovery/src/exchange_run_controller.cpp:309-313 | closing admission changes nothing else |
| Lifecycle.Controller.StartupNewRun | core/recovery/src/exchange_run_controller.cpp:13-51 | a new run opens admission only after its open catalog entry is committed |
| Lifecycle.Controller.StartupExistingRun | core/recovery/src/exchange_run_controller.cpp:53-122 | an existing run comes up paused, at rest, with exactly the commands its journal holds, and does so whenever its catalog entry allows it, no call fails and no identity repeats |
| Lifecycle.Controller.RecoverFailedRun | core/recovery/src/controller_command_processing.cpp:349-456 | a failed run comes back paused with exactly the commands its journal holds, or stays closed; over the failed path's own file it does come back when no call fails, with every committed command, at most the one whose append failed beside them, and every completed result on record |
| Lifecycle.Controller.OwnJournalIsRecoverable | core/recovery/src/controller_command_processing.cpp:349-456 | the journal file of a path that failed in any way can be recovered, and whatever is rebuilt from it keeps the completed results |
| Bus.StepKeepsInv | core/bus/include/bus.hpp:47-115 | every single step of the writer or of a reader keeps the ring invariant |
| Bus.NeededIsIntact | core/bus/include/bus.hpp:47-71 | the slot a reader is about to copy is never torn or overwritten |
| Bus.EveryInterleaving | core/bus/include/bus.hpp:47-115 | in every interleaving each reader has received exactly the published messages up to its cursor, the cached minimum never passes a cursor, and no unread message is overwritten |
| Bus.WritesAlone | core/bus/include/bus.hpp:47-71 | a write that is not interrupted is refused exactly when a reader is a whole lap behind, and otherwise publishes its message behind all others |
| ResultProjection.ProjectPrivateResult | matching_engine/src/private_result_projection.cpp:122-142 | the two loops compute a client's own projection, or nothing for a client the command does not affect |
| ResultProjection.PlanEvent | matching_engine/src/private_result_projection.cpp:146-163 | the plan lists each affected client once, in order of first appearance, with the exact room it needs |
| ResultProjection.FanOutEvent | matching_engine/src/private_result_projection.cpp:171-182 | every affected client is found in the plan and gets its view of the event |
| ResultProjection.ProjectPrivateResults | matching_engine/src/private_result_projection.cpp:144-184 | the fan-out lists each affected client once, in order of first appearance, and agrees with every client's own projection, whose content `ClientViews.FanOutTells` gives |
| ResultProjection.FanOutSize | matching_engine/src/private_result_projection.cpp:34-46 | a fan-out holds two events per trade and one per other event, hence at most twice the events of the command |
| ResultProjection.OnlyOriginatorIsCorrelated | matching_engine/src/private_result_projection.cpp:107-118 | only the originating client's entry carries the correlation |
| ResultProjection.ProjectPublicTrades | matching_engine/src/public_trade_projection.cpp:10-34 | the public projection is the trades of the command, in order |
| ClientViews.FanOutTells | matching_engine/src/private_result_projection.cpp:68-105 | a fan-out tells each client every event that concerns it, in order and nothing else: a trade from the side of its own order with its own order id and remaining quantity, anything else unchanged |
| ClientViews.FanOutInOrder | matching_engine/src/private_result_projection.cpp:48-66 | clients appear in the order in which the events first concern them, the maker of a trade before its taker |
| ClientViews.PublicIsTold | matching_engine/src/public_trade_projection.cpp:10-34 | the public is told identity, instrument, price, quantity and aggressor side of every trade, in order, and nothing else |
| ClientViews.TradeIsTold | matching_engine/src/private_result_projection.cpp:68-105 | over the resting orders: each maker is told of the side of its own resting order and what is left of it in the book, the sender of the command of its own side and what it still wants |
| ApplicationJson.DecimalDenotes | core/application/src/application_event_json.cpp:16-20 | a printed number reads back as itself, without leading zeros |
| ApplicationJson.AppendJsonString | core/application/src/application_event_json.cpp:28-67 | the loop appends the escaped string between quotes |
| ApplicationJson.UnescapeEscaped | core/application/src/application_event_json.cpp:28-67 | a JSON reader gets back exactly the bytes that were escaped |
| ApplicationJson.OtherEventsAreSmaller | core/application/src/application_event_gateway.cpp:71-74 | no other event takes more room than two private trades and a comma |
| ApplicationJson.SerializePublicTrades | core/application/src/application_event_json.cpp:279-311 | trades serialize exactly when they are non-empty and of one run and command, to the stated message |
| ApplicationJson.SerializePrivateResult | core/application/src/application_event_json.cpp:313-359 | a result serializes exactly when its events and correlation belong to the run, the command and the recipient |
| ApplicationJson.PrivateMessageFits | core/application/src/application_event_gateway.cpp:75-83 | no private message of a matcher-produced result exceeds the minimum outbound capacity |
| ApplicationJson.PublicMessageFits | core/application/src/application_event_gateway.cpp:84-96 | no public message of a matcher-produced result exceeds it either |
| ApplicationJson.ProjectionSerializes | core/application/src/application_event_json.cpp:220-275 | every projection of a matcher-produced result serializes |
| JsonReading.ReadsPublicMessage | core/application/src/application_event_json.cpp:279-311 | a reader of a public message finds the run and every trade, each name with the value of its own field, in order |
| JsonReading.ReadsPrivateMessage | core/application/src/application_event_json.cpp:313-359 | a reader of a private message finds its recipient, the correlation if there is one, and every event |
| JsonReading.ReadsPrivateEvent | core/application/src/application_event_json.cpp:121-275 | and in each event its type and every field under its own name |
| ApplicationGateway.Gateway.RegisterConnection | core/application/src/application_event_gateway.cpp:138-165 | a client of a run has one connection: a new one takes the place of the old with an empty queue, or is added behind all others if there is room; every other connection keeps its queue, and each refusal happens exactly for its reason |
| ApplicationGateway.Gateway.Disconnect | core/application/src/application_event_gateway.cpp:167-174 | disconnecting removes exactly the connection with that handle and keeps every other one with its queue |
| ApplicationGateway.Gateway.TryPopOutbound | core/application/src/application_event_gateway.cpp:188-201 | popping takes the oldest message and the byte count never falls short of it |
| ApplicationGateway.Gateway.AdvancePublic | core/application/src/application_event_gateway.cpp:203-247 | the trades of one result are always routed, as one message that fits an empty queue: every connection of the run with room for it keeps its queue and gets it, every other connection is as it was |
| ApplicationGateway.Gateway.AdvancePrivate | core/application/src/application_event_gateway.cpp:249-324 | the fan-out of one result is always routed: every connection with room keeps its queue and gets exactly the message of its own client, every connection nothing is for is as it was |
| ApplicationGateway.BroadcastReaches | core/application/src/application_event_gateway.cpp:226-242 | public routing puts the message at the end of the queue of every connection of the run that has room, drops those that have not, and leaves the other runs alone |
| ApplicationGateway.ClientIsReached | core/application/src/application_event_gateway.cpp:300-320 | private routing does the same for the one connection of each client that is told something |
| ApplicationGateway.BroadcastKeeps | core/application/src/application_event_gateway.cpp:226-242 | routing keeps queued bytes equal to the queued messages, and connections distinct |
| EndToEnd.LiveResult | core/application/src/application_event_gateway.cpp:41-96 | every result of a running command path is one the gateway accepts |
| EndToEnd.PoppedPrivateIsRouted | core/application/src/application_event_gateway.cpp:249-324 | every private batch popped from a command path is a complete fan-out for real clients, which the gateway routes |
| EndToEnd.PoppedPublicIsRouted | core/application/src/application_event_gateway.cpp:203-247 | every public batch popped from a command path is the trades of exactly one result, which the gateway routes as one message |
| EndToEnd.RoutePublic | core/application/src/application_event_gateway.cpp:203-247 | the gateway's public step over a running path never fails by itself, and every connection of the run with room receives the trades of one result as one message |
| EndToEnd.RoutePrivate | core/application/src/application_event_gateway.cpp:249-324 | nor does the private step: what it pops is the whole fan-out of one result, and each connection with room receives its own part |
| FixDecimal.PowerOfTen | core/fix/src/fix_parser.cpp:19-28 | the power fits 64 bits exactly up to exponent 19, and otherwise the configuration is refused |
| FixDecimal.ParseUnsignedWhole | core/fix/src/fix_parser.cpp:30-49 | a whole number is accepted exactly when it consists of digits and does not exceed the maximum; no step overflows |
| FixDecimal.TicksAtScale | core/fix/src/fix_parser.cpp:75-106 | equality of the decimal fraction with k ticks is equality of integers at the scale with nothing beyond it |
| FixDecimal.ParsePriceTicks | core/fix/src/fix_parser.cpp:51-108 | a price is k exactly when the text denotes k ticks with k from 1 to the maximum; no intermediate value overflows |
| FixDecimal.ParseQuantityUnits | core/fix/src/fix_parser.cpp:110-134 | a quantity is q exactly when the text denotes the whole number q, a positive multiple of the lot within the maximum |

## Left out

- Statistics counters, console output, adaptive idling and the thread loops around each component: no property of their own.
- Allocation failure: every allocation succeeds, so the branches that answer it are not modelled; nor is the catch-all branch of the controller's step, since nothing it calls can throw on this path.
- The multicast write after each match (`matching_engine/src/matching_engine.cpp:117`): the ring is modelled on its own in `Bus`, the command path does not use its result.
- Bus: atomic operations take effect one at a time, in some order; weaker memory orderings and the wrap-around of 64-bit cursors are not modelled. Registering a cursor after the first write is not modelled.
- The lock-free and mutex-protected queues: each is a bounded sequence whose operations are atomic.
- Catalog file handling (temporary file, rename, directory synchronisation, its codec): one durable cell instead. The last reserved run id, run-id reservation, creation of a new journal file and of its path, and removal of a replaced stopped journal are left out, so a stop has no clean-up outcome of its own.
- Lifecycle.Controller.StartupNewRun: takes the prepared journal, holding exactly its header, as given; preparing and verifying it on disk is not modelled.
- Lookup of results of a retained stopped run, and inspection snapshots: they only read what is modelled here.
- JournalRecovery.Prepare: the file is already open; a missing file and a failing open are not modelled.
- Admission of commands without a run (`reserve` without staging) and the sequencer without a journal: the controller uses neither.
- ApplicationJson: enumerator values outside their declared range, and the error they produce, cannot be expressed. A rejected command always carries its order id, as the matcher always sets it.
- FixDecimal: the wording of validation errors is one value, and reading the texts out of FIX messages is not modelled.
- What a successful synchronisation makes durable is not a property of its own: the contents a crash can leave include every unsynchronised prefix of a frame.
- TLS, the HTTPS server, sockets, FIX sessions, the Node, Docker and Python parts: foreign libraries and plumbing.
