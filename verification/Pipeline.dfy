/**
 * The command path of one run: bounded queues between submission, sequencing with its durable append, matching,
 * completion and delivery, each stage with room for the one item it could not hand on.
 */
module Pipeline {
  import opened LittleEndian
  import opened Domain
  import opened PriceTime
  import opened PriceTimeTheorems
  import opened BookIndex
  import opened MatchingEngine
  import opened JournalFrame
  import opened CommandCodec
  import opened HeaderCodec
  import opened JournalFile
  import opened StorageFile
  import opened JournalWriter
  import opened Admission
  import opened RecordKeeping
  import opened Replay
  import opened Stages
  import opened RecoveredRun
  import opened AdmissionRecovery
  import opened ResultProjection
  import opened Delivery

  class CommandPath {
    const writer: Writer
    const index: AdmissionIndex
    const book: MatchingState
    const submissionCapacity: nat
    const matchingCapacity: nat
    const resultCapacity: nat
    const privateEventCapacity: nat
    const publicRecordCapacity: nat

    var ingress: seq<Message>
    var matching: seq<Message>
    var results: seq<Batch>
    var privateResults: seq<seq<RecipientResult>>
    var queuedPrivateEvents: nat
    var publicTrades: seq<seq<PublicTrade>>
    var queuedPublicRecords: nat

    var pendingCommand: Option<Message>
    var pendingReadyForMatching: bool
    var journalAppendFailure: Option<AppendOutcome>
    var pendingCommandResult: Option<Batch>
    var dispatch: Dispatch

    var acceptedNotAppendedCommands: nat
    var acceptedNotAppendedBytes: nat
    var capacityTransitionPending: bool

    /** Every command accepted in this run, those given a number, every result, and how many are completed. */
    ghost var accepted: seq<Message>
    ghost var live: seq<Message>
    ghost var batches: seq<Batch>
    ghost var completed: nat
    /** Everything handed to delivery since this path was installed, and what has been popped from there. */
    ghost const first: nat
    ghost var handedPrivate: seq<seq<RecipientResult>>
    ghost var handedPublic: seq<seq<PublicTrade>>
    ghost var poppedPrivate: seq<seq<RecipientResult>>
    ghost var poppedPublic: seq<seq<PublicTrade>>

    ghost function Held(): Option<Message>
      reads this`pendingCommand, this`pendingReadyForMatching
    {
      if pendingReadyForMatching then None else pendingCommand
    }

    ghost function Ready(): Option<Message>
      reads this`pendingCommand, this`pendingReadyForMatching
    {
      if pendingReadyForMatching then pendingCommand else None
    }

    /** The command whose append failed is one the journal has no form for. */
    ghost predicate Unjournalable()
      reads this`pendingCommand, this`pendingReadyForMatching
    {
      Held().Some? && !Journalable(writer.header, Held().value)
    }

    /** Over storage that works, the only failing append is that of a command the journal has no form for. */
    ghost predicate FailsForCommand()
      reads this`pendingCommand, this`pendingReadyForMatching, this`journalAppendFailure, writer, writer.file
    {
      Healthy(writer.file.fates) && (journalAppendFailure.Some? ==> Unjournalable())
    }

    ghost predicate Sequencing()
      reads this`accepted, this`live, this`pendingCommand, this`pendingReadyForMatching, this`ingress,
            this`journalAppendFailure, writer, writer.file
    {
      && writer.Valid() && KnowsInstruments(writer.header)
      && InAcceptanceOrder(accepted, live, Held(), ingress)
      && Journaled(writer.header, live, writer.committed)
      && InFlight(writer.header, writer.committed, writer.attempted, Held())
      && PlainCancels(accepted)
      && (pendingReadyForMatching ==> pendingCommand.Some?)
      && |ingress| <= submissionCapacity
      && (journalAppendFailure.None? ==> writer.usable && Held().None?)
      && (journalAppendFailure.Some? ==> !journalAppendFailure.value.Committed? && !journalAppendFailure.value.CapacityReached?)
    }

    ghost predicate MatchingBook()
      reads this`accepted, this`live, this`pendingCommand, this`pendingReadyForMatching, this`matching, this`batches,
            book, book.nodes
    {
      && 0 < matchingCapacity && |matching| <= matchingCapacity
      && book.Valid() && book.run == writer.header.run
      && MatchedInOrder(book.run, live, matching, Ready(), book.Resting(), batches)
      && Correlated(book.run, accepted, batches)
    }

    ghost predicate Matching()
      reads this`accepted, this`live, this`pendingCommand, this`pendingReadyForMatching, this`matching, this`results,
            this`pendingCommandResult, this`batches, this`completed, book, book.nodes
    {
      && MatchingBook()
      && 0 < resultCapacity && |results| <= resultCapacity
      && ResultsInOrder(batches, completed, results, pendingCommandResult)
    }

    ghost predicate Admitted()
      reads this`accepted, this`live, this`batches, this`completed, index`records
    {
      && index.run == writer.header.run && index.capacity == writer.header.maxCommands
      && Recorded(index.records, accepted, |live|, completed, batches)
    }

    ghost predicate HandingOver()
      reads this`batches, this`completed, this`dispatch, this`handedPrivate, this`handedPublic, this`poppedPrivate,
            this`poppedPublic, this`privateResults, this`publicTrades, this`queuedPrivateEvents, this`queuedPublicRecords
    {
      && 2 * MAX_EVENTS_PER_COMMAND <= privateEventCapacity && MAX_EVENTS_PER_COMMAND <= publicRecordCapacity
      && Delivered(batches, first, completed, dispatch, handedPrivate, handedPublic)
      && handedPrivate == poppedPrivate + privateResults
      && handedPublic == poppedPublic + publicTrades
      && queuedPrivateEvents == QueuedEvents(privateResults) <= privateEventCapacity
      && queuedPublicRecords == |Flatten(publicTrades)| <= publicRecordCapacity
    }

    /** Between two steps a pending result still has something to hand over. */
    ghost predicate Delivering()
      reads this`batches, this`completed, this`dispatch, this`handedPrivate, this`handedPublic, this`poppedPrivate,
            this`poppedPublic, this`privateResults, this`publicTrades, this`queuedPrivateEvents, this`queuedPublicRecords
    {
      HandingOver() && (dispatch.pending.Some? ==> dispatch.privateResults != [] || dispatch.publicTrades != [])
    }

    ghost predicate Valid()
      reads this, writer, writer.file, index, book, book.nodes
    {
      Sequencing() && Matching() && Admitted() && Delivering()
    }

    /** The counters still include what was committed since the counts were `commands` and `bytes`. */
    ghost predicate AccountedSince(commands: nat, bytes: nat)
      reads this`accepted, this`acceptedNotAppendedCommands, this`acceptedNotAppendedBytes, writer
    {
      var appendedCommands, appendedBytes :=
        writer.committedCommandCount - commands, writer.committedByteCount - bytes;
      && 0 <= appendedCommands <= acceptedNotAppendedCommands && 0 <= appendedBytes <= acceptedNotAppendedBytes
      && Reserves(writer.header, accepted, writer.committed, acceptedNotAppendedCommands - appendedCommands,
                  acceptedNotAppendedBytes - appendedBytes)
    }

    ghost predicate Accounted()
      reads this`accepted, this`acceptedNotAppendedCommands, this`acceptedNotAppendedBytes, writer
    {
      AccountedSince(writer.committedCommandCount, writer.committedByteCount)
    }

    /** Installed over a quiescent run; nothing it completed before is delivered again. */
    constructor (writer: Writer, index: AdmissionIndex, book: MatchingState, submissionCapacity: nat,
                 matchingCapacity: nat, resultCapacity: nat, privateEventCapacity: nat, publicRecordCapacity: nat,
                 ghost batches: seq<Batch>)
      requires writer.Valid() && writer.usable && book.Valid() && book.run == writer.header.run
      requires index.run == writer.header.run && index.capacity == writer.header.maxCommands
      requires Quiescent(writer.header, writer.committed, book.Resting(), index.records, batches)
      requires 0 < submissionCapacity && 0 < matchingCapacity && 0 < resultCapacity
      requires 2 * MAX_EVENTS_PER_COMMAND <= privateEventCapacity && MAX_EVENTS_PER_COMMAND <= publicRecordCapacity
      ensures Valid() && Accounted()
      ensures this.writer == writer && this.index == index && this.book == book
      ensures accepted == MessagesFrom(writer.committed) && this.batches == batches
      ensures !capacityTransitionPending && journalAppendFailure.None? && ProcessingDrained() && ResultHandoffsDrained()
    {
      hide Quiescent, Recorded, KnowsInstruments, InAcceptanceOrder, Journaled, MatchedInOrder, Correlated,
           ResultsInOrder, PlainCancels, Reserves, MessagesFrom, Delivered, Writer.Valid, MatchingState.Valid, InFlight,
           Fits, Journal;
      this.writer, this.index, this.book := writer, index, book;
      this.submissionCapacity, this.matchingCapacity, this.resultCapacity :=
        submissionCapacity, matchingCapacity, resultCapacity;
      this.privateEventCapacity, this.publicRecordCapacity := privateEventCapacity, publicRecordCapacity;
      ingress, matching, results := [], [], [];
      privateResults, queuedPrivateEvents, publicTrades, queuedPublicRecords := [], 0, [], 0;
      pendingCommand, pendingReadyForMatching, journalAppendFailure, pendingCommandResult := None, false, None, None;
      dispatch := IDLE;
      acceptedNotAppendedCommands, acceptedNotAppendedBytes, capacityTransitionPending := 0, 0, false;
      accepted, live := MessagesFrom(writer.committed), MessagesFrom(writer.committed);
      this.batches, completed, first := batches, |writer.committed|, |writer.committed|;
      handedPrivate, handedPublic, poppedPrivate, poppedPublic := [], [], [], [];
      new;
      WriterCounts(writer);
      NothingInFlight(writer.header, writer.committed, None);
      QuiescentStages(writer.header, writer.committed, book.Resting(), index.records, batches);
      QuiescentHeader(writer.header, writer.committed, book.Resting(), index.records, batches);
      NothingDelivered(batches, completed);
    }

    lemma QuiescentHeader(h: Header, committed: seq<Command>, resting: Book, records: Records, batches: seq<Batch>)
      requires Quiescent(h, committed, resting, records, batches)
      ensures KnowsInstruments(h) && |batches| == |committed|
    {
      hide Fits, HasReplayed, Recorded, KnowsInstruments;
    }

    // ----- Sequencing

    method HandoffPendingCommand() returns (handedOff: bool)
      requires Sequencing() && Matching() && Admitted() && pendingCommand.Some? && pendingReadyForMatching
      modifies this`matching, this`pendingCommand, this`pendingReadyForMatching
      ensures Sequencing() && Matching() && Admitted()
      ensures handedOff == (old(|matching|) < matchingCapacity)
      ensures if handedOff then pendingCommand.None? && matching == old(matching) + [old(pendingCommand.value)]
              else matching == old(matching) && pendingCommand == old(pendingCommand) && pendingReadyForMatching
    {
      hide InAcceptanceOrder, Journaled, PlainCancels, MatchedInOrder, Correlated, ResultsInOrder, KnowsInstruments,
           Recorded, Writer.Valid, MatchingState.Valid;
      if |matching| >= matchingCapacity {
        return false;
      }
      QueueReady(book.run, live, matching, pendingCommand.value, book.Resting(), batches);
      matching := matching + [pendingCommand.value];
      pendingCommand := None;
      pendingReadyForMatching := false;
      handedOff := true;
    }

    /** Converts a message into its journal command and appends it. */
    method AppendCommand(m: Message) returns (outcome: AppendOutcome)
      requires writer.Valid() && writer.usable
      modifies writer, writer.file
      ensures writer.Valid()
      ensures outcome.Committed? ==>
                && CommandOf(writer.header, m).Some?
                && writer.committed == old(writer.committed) + [CommandOf(writer.header, m).value]
                && writer.usable
      ensures !outcome.Committed? ==> writer.committed == old(writer.committed)
      ensures outcome.InvalidCommand? <==>
                !(&& CommandOf(writer.header, m).Some?
                  && InContext(writer.header, CommandOf(writer.header, m).value, old(|writer.committed|) + 1))
      ensures outcome.CapacityReached? ==>
                && CommandOf(writer.header, m).Some?
                && InContext(writer.header, CommandOf(writer.header, m).value, old(|writer.committed|) + 1)
                && !Fits(writer.header, old(writer.committed) + [CommandOf(writer.header, m).value])
      ensures InFlight(writer.header, writer.committed, writer.attempted, Some(m))
      ensures Healthy(old(writer.file.fates)) ==>
                Healthy(writer.file.fates) && !outcome.IoFailure? && !outcome.RecoveryRequired?
    {
      hide InContext, Fits, Journal, Writer.Valid, IsClientCommandId, Healthy;
      WriterCounts(writer);
      var header := writer.header;
      if m.clientCommandId.None? {
        return InvalidCommand(Codec(InvalidClientCommandId));
      }
      if m.configurationVersion >= U32_LIMIT {
        return InvalidCommand(InstrumentConfigurationMismatch);
      }
      if IsNewOrder(m) {
        outcome := writer.Append(
          NewOrder(header.run, m.sequence, header.rules, m.configurationVersion, m.clientId, m.instrumentId,
                   m.clientCommandId.value, if m.kind.BUY? then Buy else Sell, m.tif, m.price, m.quantity));
        WriterCounts(writer);
        return;
      }
      if !m.kind.CANCEL? {
        return InvalidCommand(Codec(UnsupportedRecordType));
      }
      if m.targetOrderId.None? {
        return InvalidCommand(Codec(ZeroTargetOrderId));
      }
      outcome := writer.Append(
        Cancel(header.run, m.sequence, header.rules, m.configurationVersion, m.clientId, m.instrumentId,
               m.clientCommandId.value, m.targetOrderId.value));
      WriterCounts(writer);
    }

    /** How far everything in flight is from delivery; every stage weighs less than the one before it. */
    ghost function Load(): nat
      reads this`ingress, this`pendingCommand, this`matching, this`pendingCommandResult, this`results, this`dispatch
    {
      12 * |ingress| + 10 * |AsSeq(pendingCommand)| + 8 * |matching| + 6 * |AsSeq(pendingCommandResult)| +
      5 * |results| + (if dispatch.privateResults != [] then 2 else 0) + (if dispatch.publicTrades != [] then 1 else 0)
    }

    predicate ProcessingDrained()
      reads this
    {
      && ingress == [] && matching == [] && results == [] && pendingCommand.None? && pendingCommandResult.None?
      && dispatch.pending.None?
    }

    predicate ResultHandoffsDrained()
      reads this
    {
      privateResults == [] && publicTrades == [] && dispatch.privateResults == [] && dispatch.publicTrades == []
    }

    /** The failing append reports a bad command or bad storage, never a full journal. */
    lemma NeverFull(m: Message, c: Command, commands: nat, bytes: nat)
      requires Sequencing() && AccountedSince(commands, bytes) && journalAppendFailure.None? && ingress != []
      requires m == ingress[0].(sequence := |live| + 1) && CommandOf(writer.header, m) == Some(c)
      requires InContext(writer.header, c, |writer.committed| + 1)
      ensures Fits(writer.header, writer.committed + [c])
      ensures acceptedNotAppendedCommands - (writer.committedCommandCount - commands) >= 1
      ensures acceptedNotAppendedBytes - (writer.committedByteCount - bytes) >= |FrameOf(c)|
      ensures |Journal(writer.header, writer.committed + [c])| == writer.committedByteCount + |FrameOf(c)|
      ensures Reserves(writer.header, accepted, writer.committed + [c],
                       acceptedNotAppendedCommands - (writer.committedCommandCount - commands) - 1,
                       acceptedNotAppendedBytes - (writer.committedByteCount - bytes) - |FrameOf(c)|)
    {
      hide Writer.Valid, CommandOf, InContext, Journal, Fits, FrameOf, KnowsInstruments, Reserves;
      WriterCounts(writer);
      TakeNext(accepted, live, ingress);
      NextFits(writer.header, accepted, writer.committed,
               acceptedNotAppendedCommands - (writer.committedCommandCount - commands),
               acceptedNotAppendedBytes - (writer.committedByteCount - bytes), c);
    }

    /** What holds once the pending command is durable but not yet marked. */
    ghost predicate Durable(m: Message, n: u64)
      reads this`accepted, this`live, this`pendingCommand, this`pendingReadyForMatching, this`ingress,
            this`journalAppendFailure, writer, writer.file
    {
      && writer.Valid() && writer.usable && KnowsInstruments(writer.header) && PlainCancels(accepted)
      && |ingress| <= submissionCapacity && journalAppendFailure.None?
      && 0 < n == |live| + 1 <= |accepted| && m == accepted[|live|]
      && pendingCommand == Some(m.(sequence := n)) && !pendingReadyForMatching
      && InAcceptanceOrder(accepted, live + [Numbered(m, n)], None, ingress)
      && Journaled(writer.header, live + [Numbered(m, n)], writer.committed)
    }

    /** Takes the oldest staged command, gives it the next number and appends it. */
    method AppendNext(ghost commands: nat, ghost bytes: nat) returns (m: Message, n: u64)
      requires Sequencing() && AccountedSince(commands, bytes)
      requires journalAppendFailure.None? && pendingCommand.None? && ingress != []
      modifies this`ingress, this`pendingCommand, this`journalAppendFailure, writer, writer.file
      ensures AccountedSince(commands, bytes)
      ensures ingress == old(ingress)[1..] && pendingCommand.Some?
      ensures if journalAppendFailure.None? then Durable(m, n) else Sequencing()
      ensures Healthy(old(writer.file.fates)) ==>
                && Healthy(writer.file.fates)
                && (journalAppendFailure.Some? <==> !Journalable(writer.header, old(ingress)[0]))
      ensures Healthy(old(writer.file.fates)) && journalAppendFailure.Some? ==> Unjournalable()
    {
      hide InAcceptanceOrder, Journaled, PlainCancels, KnowsInstruments, Writer.Valid, CommandOf, InContext, Fits,
           Reserves, Journal, FrameOf, Numbered, Healthy, InFlight, Journalable;
      WriterCounts(writer);
      JournaledCount(writer.header, live, writer.committed);
      TakeNext(accepted, live, ingress);
      m := ingress[0];
      n := writer.nextCommandSequence;
      var pending := m.(sequence := n);
      NumberDoesNotMatter(writer.header, m, n);
      assert Journalable(writer.header, pending) == Journalable(writer.header, m) by { SameForm(writer.header, m, n); }
      ghost var before := writer.committed;
      if CommandOf(writer.header, pending).Some?
        && InContext(writer.header, CommandOf(writer.header, pending).value, |before| + 1)
      {
        NeverFull(pending, CommandOf(writer.header, pending).value, commands, bytes);
      }
      ingress, pendingCommand := ingress[1..], Some(pending);
      var outcome := AppendCommand(pending);
      WriterCounts(writer);
      if !outcome.Committed? {
        journalAppendFailure := Some(outcome);
        return;
      }
      NumberedIs(writer.header, m, n);
      JournalOne(writer.header, live, before, Numbered(m, n), CommandOf(writer.header, pending).value);
    }

    /** Takes the oldest staged command and makes it durable before anything else sees it. */
    method TakeAndAppend(ghost commands: nat, ghost bytes: nat)
      requires Sequencing() && Matching() && Admitted() && AccountedSince(commands, bytes)
      requires journalAppendFailure.None? && pendingCommand.None? && !pendingReadyForMatching && ingress != []
      modifies this`ingress, this`pendingCommand, this`pendingReadyForMatching, this`journalAppendFailure, this`live,
               writer, writer.file, index`records
      ensures Sequencing() && Matching() && Admitted() && AccountedSince(commands, bytes)
      ensures ingress == old(ingress)[1..] && pendingCommand.Some?
      ensures journalAppendFailure.None? <==> pendingReadyForMatching
      ensures Healthy(old(writer.file.fates)) ==>
                FailsForCommand() && (journalAppendFailure.Some? <==> !Journalable(writer.header, old(ingress)[0]))
    {
      hide Sequencing, Admitted, AccountedSince, Durable, MatchedInOrder, Correlated, ResultsInOrder, MatchingState.Valid,
           Healthy, Journalable;
      var m, n := AppendNext(commands, bytes);
      if journalAppendFailure.None? {
        MarkPending(m, n);
      }
    }

    /** A committed command gets its order id, its record and its place in the run. */
    method MarkPending(ghost m: Message, ghost n: u64)
      requires Durable(m, n)
      requires Matching() && Admitted()
      modifies this`pendingCommand, this`pendingReadyForMatching, this`live, index`records
      ensures Sequencing() && Matching() && Admitted()
      ensures pendingCommand.Some? && pendingReadyForMatching
    {
      hide InAcceptanceOrder, Journaled, PlainCancels, MatchedInOrder, Correlated, ResultsInOrder, KnowsInstruments,
           Recorded, Writer.Valid, MatchingState.Valid, Numbered, KeyOf, BusinessOf, InFlight, Fits, Journal, CommandOf;
      WriterCounts(writer);
      NothingInFlight(writer.header, writer.committed, None);
      var pending := pendingCommand.value;
      if pending.kind.BUY? || pending.kind.SELL? {
        pending := pending.(orderId := pending.sequence);
      }
      NumberedIs(writer.header, m, n);
      assert pending == Numbered(m, n);
      NumberedKeepsIdentity(m, n);
      RecordSequenced(index.records, accepted, |live|, completed, batches);
      var status := index.MarkSequenced(pending);
      if !status.MarkedSequenced? {
        assert false; // the reservation of every staged command is still open
      }
      MakeReady(book.run, live, matching, pending, book.Resting(), batches);
      live := live + [pending];
      pendingCommand := Some(pending);
      pendingReadyForMatching := true;
    }

    /** Hands the pending command on, or takes the next one from the staging queue. */
    method ProcessNext(ghost commands: nat, ghost bytes: nat) returns (progressed: bool)
      requires Sequencing() && Matching() && Admitted() && AccountedSince(commands, bytes) && journalAppendFailure.None?
      modifies this`ingress, this`matching, this`pendingCommand, this`pendingReadyForMatching, this`journalAppendFailure,
               this`live, writer, writer.file, index`records
      ensures Sequencing() && Matching() && Admitted() && AccountedSince(commands, bytes)
      ensures Load() <= old(Load())
      ensures progressed ==> journalAppendFailure.None? && Load() < old(Load())
      ensures !progressed ==>
                journalAppendFailure.Some? || (pendingCommand.None? && ingress == []) || |matching| == matchingCapacity
      ensures !progressed && pendingCommand.None? ==> ingress == old(ingress) && old(pendingCommand).None?
      ensures !progressed ==> matching == old(matching)
      ensures Healthy(old(writer.file.fates)) ==> FailsForCommand()
    {
      hide InAcceptanceOrder, Journaled, PlainCancels, MatchedInOrder, Correlated, ResultsInOrder, KnowsInstruments,
           Recorded, Reserves, Writer.Valid, MatchingState.Valid, Healthy, Journalable, InFlight;
      if pendingCommand.Some? {
        progressed := HandoffPendingCommand();
        return;
      }
      if ingress == [] {
        return false;
      }
      TakeAndAppend(commands, bytes);
      if journalAppendFailure.Some? {
        return false;
      }
      progressed := HandoffPendingCommand();
    }

    method AdvanceSequencer(ghost commands: nat, ghost bytes: nat) returns (progressed: bool)
      requires Sequencing() && Matching() && Admitted() && AccountedSince(commands, bytes) && journalAppendFailure.None?
      modifies this`ingress, this`matching, this`pendingCommand, this`pendingReadyForMatching, this`journalAppendFailure,
               this`live, writer, writer.file, index`records
      ensures Sequencing() && Matching() && Admitted() && AccountedSince(commands, bytes)
      ensures Load() <= old(Load())
      ensures progressed ==> Load() < old(Load())
      ensures journalAppendFailure.Some? || (pendingCommand.None? && ingress == []) || |matching| == matchingCapacity
      ensures !progressed && pendingCommand.None? ==> ingress == old(ingress) && old(pendingCommand).None?
      ensures !progressed ==> matching == old(matching)
      ensures Healthy(old(writer.file.fates)) ==> FailsForCommand()
    {
      hide Sequencing, Matching, Admitted, AccountedSince, Healthy, Journalable;
      progressed := false;
      var more := true;
      while more
        invariant Sequencing() && Matching() && Admitted() && AccountedSince(commands, bytes)
        invariant Load() <= old(Load()) && (progressed ==> Load() < old(Load()))
        invariant more ==> journalAppendFailure.None?
        invariant !progressed && (more || pendingCommand.None?) ==>
                    ingress == old(ingress) && (more || old(pendingCommand).None?)
        invariant !progressed && more ==> pendingCommand == old(pendingCommand)
        invariant !progressed ==> matching == old(matching)
        invariant Healthy(old(writer.file.fates)) ==> FailsForCommand()
        invariant !more ==>
                    journalAppendFailure.Some? || (pendingCommand.None? && ingress == []) || |matching| == matchingCapacity
        decreases Load(), more
      {
        more := ProcessNext(commands, bytes);
        progressed := progressed || more;
      }
    }

    /** What the journal gained is no longer waiting; the counters can never fall short of it. */
    method AccountJournalProgress(beforeCommands: u64, beforeBytes: u64)
      requires AccountedSince(beforeCommands, beforeBytes)
      modifies this`acceptedNotAppendedCommands, this`acceptedNotAppendedBytes
      ensures Accounted()
    {
      hide Reserves;
      var appendedCommands := writer.committedCommandCount - beforeCommands;
      var appendedBytes := writer.committedByteCount - beforeBytes;
      if appendedCommands > acceptedNotAppendedCommands || appendedBytes > acceptedNotAppendedBytes {
        assert false; // accounting never diverges from the journal
      }
      acceptedNotAppendedCommands := acceptedNotAppendedCommands - appendedCommands;
      acceptedNotAppendedBytes := acceptedNotAppendedBytes - appendedBytes;
    }

    method SequenceAndAccount() returns (progressed: bool)
      requires Sequencing() && Matching() && Admitted() && Accounted() && journalAppendFailure.None?
      modifies this`ingress, this`matching, this`pendingCommand, this`pendingReadyForMatching, this`journalAppendFailure,
               this`acceptedNotAppendedCommands, this`acceptedNotAppendedBytes, this`live, writer, writer.file,
               index`records
      ensures Sequencing() && Matching() && Admitted() && Accounted()
      ensures Load() <= old(Load())
      ensures progressed ==> Load() < old(Load())
      ensures journalAppendFailure.Some? || (pendingCommand.None? && ingress == []) || |matching| == matchingCapacity
      ensures !progressed && pendingCommand.None? ==> ingress == old(ingress) && old(pendingCommand).None?
      ensures !progressed ==> matching == old(matching)
      ensures Healthy(old(writer.file.fates)) ==> FailsForCommand()
    {
      hide *;
      AccountedMeans();
      var beforeCommands, beforeBytes := writer.committedCommandCount, writer.committedByteCount;
      progressed := AdvanceSequencer(beforeCommands, beforeBytes);
      AccountJournalProgress(beforeCommands, beforeBytes);
    }

    lemma AccountedMeans()
      requires Accounted()
      ensures AccountedSince(writer.committedCommandCount, writer.committedByteCount)
    {
      hide AccountedSince;
    }

    // ----- Matching

    method HandoffPendingResult() returns (handedOff: bool)
      requires Matching() && pendingCommandResult.Some?
      modifies this`results, this`pendingCommandResult
      ensures Matching()
      ensures handedOff == (old(|results|) < resultCapacity)
      ensures if handedOff then pendingCommandResult.None? && Load() < old(Load())
              else results == old(results) && pendingCommandResult == old(pendingCommandResult)
    {
      hide MatchedInOrder, Correlated, ResultsInOrder, MatchingState.Valid;
      if |results| >= resultCapacity {
        return false;
      }
      HandResult(batches, completed, results, pendingCommandResult.value);
      results := results + [pendingCommandResult.value];
      pendingCommandResult := None;
      handedOff := true;
    }

    /** What the next match will produce, and that every relation between the stages survives it. */
    lemma MatchOutcome() returns (spec: Outcome)
      requires Sequencing() && Matching() && Admitted() && Delivering()
      requires matching != [] && pendingCommandResult.None?
      ensures Positive(book.Resting()) && spec == Apply(book.run, book.Resting(), matching[0]) && spec.Done?
      ensures IsNewOrder(matching[0]) ==> forall id | id in book.activeOrders :: id < matching[0].orderId
      ensures MatchedInOrder(book.run, live, matching[1..], Ready(), spec.book, batches + [spec.batch])
      ensures Correlated(book.run, accepted, batches + [spec.batch])
      ensures Recorded(index.records, accepted, |live|, completed, batches + [spec.batch])
      ensures Delivered(batches + [spec.batch], first, completed, dispatch, handedPrivate, handedPublic)
      ensures ResultsInOrder(batches + [spec.batch], completed, results, Some(spec.batch))
      ensures ResultsInOrder(batches + [spec.batch], completed, results + [spec.batch], None)
    {
      hide InAcceptanceOrder, Journaled, PlainCancels, MatchedInOrder, Correlated, ResultsInOrder, KnowsInstruments,
           Recorded, Writer.Valid, MatchingState.Valid, Delivered, Apply, Sound, Fits, Positive, CorrelationOf;
      WriterCounts(writer);
      var resting := book.Resting();
      NextMatches(writer.header, accepted, live, writer.committed, Held(), ingress, matching, Ready(), resting, batches);
      SoundIsPositive(resting, |batches| + 1);
      OrdersBelow(book.activeOrders, |batches| + 1);
      spec := Apply(book.run, resting, matching[0]);
      MatchOne(book.run, live, matching, Ready(), resting, batches);
      CorrelateOne(writer.header, accepted, live, writer.committed, Held(), ingress, matching, Ready(), resting, batches,
                   spec.batch);
      RecordedMoreBatches(index.records, accepted, |live|, completed, batches, spec.batch);
      DeliveredMoreBatches(batches, first, completed, dispatch, handedPrivate, handedPublic, spec.batch);
      ProduceResult(batches, completed, results, spec.batch);
    }

    /** Matches the oldest queued command; the engine never throws on what the sequencer sends it. */
    method MatchFront() returns (batch: Batch)
      requires Sequencing() && Matching() && Admitted() && Delivering()
      requires matching != [] && pendingCommandResult.None?
      modifies this`matching, this`batches, book, book.nodes
      ensures Sequencing() && MatchingBook() && Admitted() && Delivering() && fresh(book.nodes - old(book.nodes))
      ensures |matching| == old(|matching|) - 1
      ensures ResultsInOrder(batches, completed, results, Some(batch))
      ensures ResultsInOrder(batches, completed, results + [batch], None)
    {
      hide InAcceptanceOrder, Journaled, PlainCancels, MatchedInOrder, Correlated, ResultsInOrder, KnowsInstruments,
           Recorded, Writer.Valid, MatchingState.Valid, Delivered, Apply, Positive, Sequencing, Abs, QueuedEvents, Flatten,
           EventCount, Held, IsNewOrder, Agrees;
      ghost var spec := MatchOutcome();
      var m := matching[0];
      matching := matching[1..];
      var reply := book.ProcessCommand(m);
      AgreesDone(reply, book.Resting(), old(book.Resting()), spec);
      if reply.Threw? {
        assert false; // every sequenced command is admissible
      }
      batch := reply.batch;
      batches := batches + [batch];
    }

    method MatchNext()
      requires Sequencing() && Matching() && Admitted() && Delivering()
      requires matching != [] && pendingCommandResult.None?
      modifies this`matching, this`results, this`pendingCommandResult, this`batches, book, book.nodes
      ensures Sequencing() && Matching() && Admitted() && Delivering() && fresh(book.nodes - old(book.nodes))
      ensures |matching| == old(|matching|) - 1 && Load() < old(Load())
    {
      hide Sequencing, MatchingBook, Admitted, Delivering, ResultsInOrder;
      var batch := MatchFront();
      if |results| < resultCapacity {
        results := results + [batch];
      } else {
        pendingCommandResult := Some(batch);
      }
    }

    method AdvanceMatcher() returns (progressed: bool)
      requires Sequencing() && Matching() && Admitted() && Delivering()
      modifies this`matching, this`results, this`pendingCommandResult, this`batches, book, book.nodes
      ensures Sequencing() && Matching() && Admitted() && Delivering() && fresh(book.nodes - old(book.nodes))
      ensures if progressed then Load() < old(Load())
              else Load() == old(Load()) && results == old(results) && matching == old(matching)
                   && pendingCommandResult == old(pendingCommandResult)
                   && (if pendingCommandResult.Some? then |results| == resultCapacity else matching == [])
      ensures pendingCommandResult.None? ==> matching == []
    {
      hide Sequencing, Admitted, Delivering, MatchedInOrder, Correlated, ResultsInOrder, MatchingState.Valid;
      progressed := false;
      if pendingCommandResult.Some? {
        var handedOff := HandoffPendingResult();
        if !handedOff {
          return false;
        }
        progressed := true;
      }
      while matching != []
        invariant Sequencing() && Matching() && Admitted() && Delivering() && fresh(book.nodes - old(book.nodes))
        invariant pendingCommandResult.None?
        invariant if progressed then Load() < old(Load())
                  else Load() == old(Load()) && results == old(results) && matching == old(matching)
                       && old(pendingCommandResult).None?
        decreases |matching|
      {
        progressed := true;
        MatchNext();
        if pendingCommandResult.Some? {
          return true;
        }
      }
    }

    // ----- Completion and delivery

    /** Completes the oldest queued result in the admission index, and projects it for delivery. */
    method TakeUpResult()
      requires Matching() && Admitted() && Delivering() && dispatch.pending.None? && results != []
      modifies this`results, this`completed, this`dispatch, index`records
      ensures Matching() && Admitted() && Delivering()
      ensures completed == old(completed) + 1 && results == old(results)[1..]
      ensures dispatch.pending.Some? && dispatch.privateResults != []
    {
      hide MatchedInOrder, ResultsInOrder, Recorded, MatchingState.Valid, Delivered, IsFanOut, KeyOf, BusinessOf,
           PublicTrades, EventCount, QueuedEvents, Flatten;
      TakeResult(batches, completed, results, pendingCommandResult);
      ResultIdentity(index.records, accepted, |live|, completed, batches, book.run);
      MatchedCount(book.run, live, matching, Ready(), book.Resting(), batches);
      RecordCompleted(index.records, accepted, |live|, completed, batches);
      var batch := results[0];
      results := results[1..];
      var status := index.Complete(batch);
      if !status.MarkedCompleted? {
        assert false; // every result belongs to the oldest sequenced record
      }
      var private := ProjectPrivateResults(batch);
      FanOutSize(batch, private);
      var public := ProjectPublicTrades(batch);
      IdleDispatch(batches, first, completed, dispatch, handedPrivate, handedPublic);
      DispatchNext(batches, first, completed, handedPrivate, handedPublic, private);
      completed := completed + 1;
      dispatch := Dispatch(Some(batch), private, public);
    }

    lemma StillPending()
      requires Delivering()
      ensures HandingOver()
      ensures dispatch.pending.Some? ==> dispatch.privateResults != [] || dispatch.publicTrades != []
    {
      hide HandingOver;
    }

    /** A fan-out always fits an empty private queue. */
    lemma PendingIsSmall()
      requires Matching() && HandingOver()
      ensures dispatch.privateResults != [] ==> 1 <= EventCount(dispatch.privateResults) <= privateEventCapacity
      ensures |dispatch.publicTrades| <= publicRecordCapacity
      ensures dispatch.pending.None? ==> dispatch == IDLE
      ensures queuedPrivateEvents > 0 ==> privateResults != []
      ensures queuedPublicRecords > 0 ==> publicTrades != []
    {
      hide MatchedInOrder, ResultsInOrder, MatchingState.Valid, IsFanOut, EventCount;
      if dispatch.privateResults != [] {
        FanOutSize(dispatch.pending.value, dispatch.privateResults);
      }
    }

    method TryPushPrivate() returns (handedOver: bool)
      requires Matching() && HandingOver()
      modifies this`dispatch, this`privateResults, this`queuedPrivateEvents, this`handedPrivate
      ensures Matching() && HandingOver()
      ensures if handedOver then old(dispatch.privateResults) != [] && dispatch == old(dispatch).(privateResults := [])
              else dispatch == old(dispatch) && (dispatch.privateResults != [] ==> privateResults != [])
    {
      hide Matching, Delivered, EventCount, QueuedEvents, Flatten;
      PendingIsSmall();
      if dispatch.privateResults == [] {
        return false;
      }
      var eventCount := EventCount(dispatch.privateResults);
      if eventCount == 0 {
        assert false; // a fan-out is never without events
      }
      if eventCount > privateEventCapacity - queuedPrivateEvents {
        return false;
      }
      HandPrivate(batches, first, completed, dispatch, handedPrivate, handedPublic);
      QueuedEventsSnoc(privateResults, dispatch.privateResults);
      handedPrivate := handedPrivate + [dispatch.privateResults];
      privateResults := privateResults + [dispatch.privateResults];
      queuedPrivateEvents := queuedPrivateEvents + eventCount;
      dispatch := dispatch.(privateResults := []);
      handedOver := true;
    }

    method TryPushPublic() returns (handedOver: bool)
      requires Matching() && HandingOver()
      modifies this`dispatch, this`publicTrades, this`queuedPublicRecords, this`handedPublic
      ensures Matching() && HandingOver()
      ensures if handedOver then old(dispatch.publicTrades) != [] && dispatch == old(dispatch).(publicTrades := [])
              else dispatch == old(dispatch) && (dispatch.publicTrades != [] ==> publicTrades != [])
    {
      hide Matching, Delivered, EventCount, QueuedEvents, Flatten;
      PendingIsSmall();
      if dispatch.publicTrades == [] || |dispatch.publicTrades| > publicRecordCapacity - queuedPublicRecords {
        return false;
      }
      HandPublic(batches, first, completed, dispatch, handedPrivate, handedPublic);
      FlattenSnoc(publicTrades, dispatch.publicTrades);
      handedPublic := handedPublic + [dispatch.publicTrades];
      publicTrades := publicTrades + [dispatch.publicTrades];
      queuedPublicRecords := queuedPublicRecords + |dispatch.publicTrades|;
      dispatch := dispatch.(publicTrades := []);
      handedOver := true;
    }

    method ClearIfHandedOver()
      requires HandingOver()
      modifies this`dispatch
      ensures Delivering()
      ensures dispatch == if old(dispatch.privateResults == [] && dispatch.publicTrades == []) then IDLE else old(dispatch)
    {
      hide Delivered, EventCount, QueuedEvents, Flatten;
      if dispatch.privateResults == [] && dispatch.publicTrades == [] {
        ClearPending(batches, first, completed, dispatch, handedPrivate, handedPublic);
        dispatch := IDLE;
      }
    }

    method AdvanceDispatcher() returns (progressed: bool)
      requires Matching() && Admitted() && Delivering()
      modifies this`results, this`completed, this`dispatch, this`privateResults, this`queuedPrivateEvents,
               this`publicTrades, this`queuedPublicRecords, this`handedPrivate, this`handedPublic, index`records
      ensures Matching() && Admitted() && Delivering()
      ensures if progressed then Load() < old(Load())
              else Load() == old(Load()) && results == old(results) && dispatch == old(dispatch)
                   && (if dispatch.pending.Some? then privateResults != [] || publicTrades != [] else results == [])
    {
      hide Matching, Admitted, Delivering, HandingOver;
      progressed := false;
      if dispatch.pending.None? {
        if results == [] {
          return false;
        }
        TakeUpResult();
        progressed := true;
      }
      StillPending();
      var handedPrivately := TryPushPrivate();
      var handedPublicly := TryPushPublic();
      ClearIfHandedOver();
      progressed := progressed || handedPrivately || handedPublicly;
    }

    // ----- One cycle

    /** A result is waiting for room in a delivery queue that somebody else has to empty. */
    predicate DeliveryBlocked()
      reads this
    {
      dispatch.pending.Some? && (privateResults != [] || publicTrades != [])
    }

    /**
     * One deterministic cycle: sequence, account, match, complete, hand over. Unless an append failed, a cycle that
     * progresses brings everything in flight closer to delivery, and one that does not finds nothing left to do, or
     * delivery blocked by results nobody has popped.
     */
    method Cycle() returns (progressed: bool)
      requires Valid() && Accounted() && journalAppendFailure.None?
      modifies this`ingress, this`matching, this`results, this`privateResults, this`queuedPrivateEvents,
               this`publicTrades, this`queuedPublicRecords, this`pendingCommand, this`pendingReadyForMatching,
               this`journalAppendFailure, this`pendingCommandResult, this`dispatch, this`acceptedNotAppendedCommands,
               this`acceptedNotAppendedBytes, this`live, this`batches, this`completed, this`handedPrivate,
               this`handedPublic, writer, writer.file, index`records, book, book.nodes
      ensures Valid() && Accounted() && fresh(book.nodes - old(book.nodes))
      ensures journalAppendFailure.None? ==>
                if progressed then Load() < old(Load()) else ProcessingDrained() || DeliveryBlocked()
      ensures journalAppendFailure.None? && !progressed && ProcessingDrained() ==> old(ProcessingDrained())
      ensures journalAppendFailure.Some? ==> !progressed
      ensures Healthy(old(writer.file.fates)) ==> FailsForCommand()
    {
      hide *;
      ValidParts();
      var sequenced := SequenceAndAccount();
      if journalAppendFailure.Some? {
        WholeIsValid();
        return false;
      }
      var matched := AdvanceMatcher();
      var dispatched := AdvanceDispatcher();
      WholeIsValid();
      progressed := sequenced || matched || dispatched;
      if !progressed {
        NothingMoved();
        StayedDrained(this);
      }
    }

    /** A cycle in which no stage moved found the path as drained as it left it. */
    twostate lemma StayedDrained(path: CommandPath)
      requires path.pendingCommand.None? ==> path.ingress == old(path.ingress) && old(path.pendingCommand).None?
      requires path.matching == old(path.matching) && path.results == old(path.results)
      requires path.pendingCommandResult == old(path.pendingCommandResult) && path.dispatch == old(path.dispatch)
      ensures path.ProcessingDrained() ==> old(path.ProcessingDrained())
    {
    }

    lemma ValidParts()
      requires Valid()
      ensures Sequencing() && Matching() && Admitted() && Delivering()
    {
      hide Sequencing, Matching, Admitted, Delivering;
    }

    lemma WholeIsValid()
      requires Sequencing() && Matching() && Admitted() && Delivering()
      ensures Valid()
    {
      hide Sequencing, Matching, Admitted, Delivering;
    }

    /** When no stage can move, everything is drained or delivery is blocked. */
    lemma NothingMoved()
      requires Matching()
      requires (pendingCommand.None? && ingress == []) || |matching| == matchingCapacity
      requires if pendingCommandResult.Some? then |results| == resultCapacity else matching == []
      requires if dispatch.pending.Some? then privateResults != [] || publicTrades != [] else results == []
      ensures ProcessingDrained() || DeliveryBlocked()
    {
      QueuesHaveRoom();
    }

    lemma QueuesHaveRoom()
      requires Matching()
      ensures 0 < matchingCapacity && 0 < resultCapacity
    {
      hide MatchingState.Valid;
    }

    // ----- Submission

    /** The bytes a command would take in the journal, if the journal would take it at all. */
    method ProspectiveFrameSize(m: Message) returns (size: Option<nat>)
      requires Sequencing() && journalAppendFailure.None?
      ensures size == if Journalable(writer.header, m) then Some(FrameBytes(writer.header, m)) else None
    {
      hide InAcceptanceOrder, Journaled, PlainCancels, KnowsInstruments, InContext, FrameOf, CommandAs, Writer.Valid;
      WriterCounts(writer);
      NumberDoesNotMatter(writer.header, m, writer.nextCommandSequence);
      var c := CommandAs(writer.header, m, writer.nextCommandSequence);
      if c.None? {
        return None;
      }
      size := writer.ProspectiveFrameSize(c.value);
    }

    /** The journal will have room for the message behind everything accepted so far, if it has a form for it at all. */
    ghost predicate HasRoomFor(m: Message)
      reads this`acceptedNotAppendedCommands, this`acceptedNotAppendedBytes, writer
    {
      Journalable(writer.header, m) ==>
        && acceptedNotAppendedCommands + writer.committedCommandCount < writer.header.maxCommands
        && writer.committedByteCount + acceptedNotAppendedBytes + FrameBytes(writer.header, m) <= writer.header.maxBytes
    }

    /** The answer to a message under a client identity nobody has used. */
    ghost function FirstAnswer(room: bool): AdmissionDecision
      reads this`ingress, index
    {
      if !room then AdmissionUnavailable(RunCapacityReached)
      else if !index.admissionOpen then AdmissionUnavailable(ExchangeRunUnavailable)
      else if |index.records| >= index.capacity then AdmissionUnavailable(NoReason)
      else if |ingress| >= submissionCapacity then AdmissionUnavailable(GatewayBusy)
      else FirstSubmission
    }

    lemma FirstAnswerIs(room: bool)
      ensures FirstAnswer(room) ==
              if !room then AdmissionUnavailable(RunCapacityReached)
              else if !index.admissionOpen then AdmissionUnavailable(ExchangeRunUnavailable)
              else if |index.records| >= index.capacity then AdmissionUnavailable(NoReason)
              else if |ingress| >= submissionCapacity then AdmissionUnavailable(GatewayBusy)
              else FirstSubmission
    {
    }

    lemma RoomMeans(m: Message, frameSize: Option<nat>)
      requires frameSize == if Journalable(writer.header, m) then Some(FrameBytes(writer.header, m)) else None
      ensures HasRoomFor(m) <==>
              (frameSize.Some? ==>
                 && acceptedNotAppendedCommands + writer.committedCommandCount < writer.header.maxCommands
                 && writer.committedByteCount + acceptedNotAppendedBytes + frameSize.value <= writer.header.maxBytes)
    {
      hide Journalable, FrameBytes;
    }

    ghost predicate IsNew(m: Message)
      reads this`accepted
    {
      forall k | 0 <= k < |accepted| :: !SharesIdentity(m, accepted[k])
    }

    /** An identity nobody used is one the index has no record for. */
    lemma NewIsUnrecorded(m: Message)
      requires Admitted() && Identified(m)
      ensures IsNew(m) <==> KeyOf(m).value !in index.records
    {
      hide KeyOf, BusinessOf, SharesIdentity;
      forall k | 0 <= k < |accepted|
        ensures KeyOf(accepted[k]) == KeyOf(m) <==> SharesIdentity(m, accepted[k])
      {
        KeyAndBusinessDecide(m, accepted[k]);
      }
      IdentifiedHas(m);
      if KeyOf(m).value in index.records {
        var k :| 0 <= k < |accepted| && KeyOf(accepted[k]) == Some(KeyOf(m).value);
        assert SharesIdentity(m, accepted[k]);
      }
    }

    /** What the accepted command adds to every relation it takes part in. */
    lemma AcceptanceOutcome(m: Message, frameBytes: nat)
      requires Valid() && Accounted() && Identified(m) && KeyOf(m).value !in index.records
      requires |index.records| < index.capacity && |ingress| < submissionCapacity
      requires !IsNewOrder(m) ==> m.orderId == 0
      requires frameBytes == FrameBytes(writer.header, m)
      requires writer.committedByteCount + acceptedNotAppendedBytes + frameBytes <= writer.header.maxBytes
      ensures InAcceptanceOrder(accepted + [m], live, Held(), ingress + [m]) && PlainCancels(accepted + [m])
      ensures Recorded(index.records[KeyOf(m).value := Fresh(m)], accepted + [m], |live|, completed, batches)
      ensures Correlated(book.run, accepted + [m], batches)
      ensures Reserves(writer.header, accepted + [m], writer.committed, acceptedNotAppendedCommands + 1,
                       acceptedNotAppendedBytes + frameBytes)
    {
      hide InAcceptanceOrder, Journaled, PlainCancels, MatchedInOrder, ResultsInOrder, KnowsInstruments, FrameBytes,
           Recorded, Reserves, Writer.Valid, MatchingState.Valid, KeyOf, BusinessOf, Delivering, Fits, Journal, Fresh;
      WriterCounts(writer);
      RecordedKeysAreDistinct(index.records, accepted, |live|, completed, batches);
      assert |accepted| < writer.header.maxCommands;
      AcceptOne(accepted, live, Held(), ingress, m);
      AcceptPlain(accepted, m);
      RecordSubmission(index.records, accepted, |live|, completed, batches, m);
      ReserveOne(writer.header, accepted, writer.committed, acceptedNotAppendedCommands, acceptedNotAppendedBytes, m);
      CorrelatedMore(book.run, accepted, batches, m);
    }

    /** Whether the run has room for one more command of this size, and whether that would use the room up. */
    method CheckCapacity(frameSize: Option<nat>) returns (available: bool, exhausts: bool)
      requires writer.Valid() && Accounted()
      ensures available ==>
                writer.committedByteCount + acceptedNotAppendedBytes + (if frameSize.Some? then frameSize.value else 0)
                <= writer.header.maxBytes
      ensures frameSize.None? ==> available && !exhausts
      ensures frameSize.Some? ==>
                (available <==>
                 && acceptedNotAppendedCommands + writer.committedCommandCount < writer.header.maxCommands
                 && writer.committedByteCount + acceptedNotAppendedBytes + frameSize.value <= writer.header.maxBytes)
      ensures frameSize.Some? && available ==>
                (exhausts <==>
                 || writer.committedCommandCount + acceptedNotAppendedCommands + 1 == writer.header.maxCommands
                 || writer.committedByteCount + acceptedNotAppendedBytes + frameSize.value == writer.header.maxBytes)
    {
      WriterCounts(writer);
      WithinBytes(writer.header, writer.committed);
      hide Writer.Valid, Journal, Fits, WaitingBytes;
      available, exhausts := true, false;
      if frameSize.Some? {
        var header, frameBytes := writer.header, frameSize.value;
        var committedCommands, committedBytes := writer.committedCommandCount, writer.committedByteCount;
        available := acceptedNotAppendedCommands < header.maxCommands - committedCommands &&
                     acceptedNotAppendedBytes <= header.maxBytes - committedBytes &&
                     frameBytes <= header.maxBytes - committedBytes - acceptedNotAppendedBytes;
        if available {
          exhausts := committedCommands + acceptedNotAppendedCommands + 1 == header.maxCommands ||
                      committedBytes + acceptedNotAppendedBytes + frameBytes == header.maxBytes;
        }
      }
    }

    /** The answer to a message whose client identity is already taken. */
    ghost predicate Retransmission(m: Message, decision: AdmissionDecision, record: Record) {
      if BusinessOf(m) != Some(record.command) then decision.ConflictingReuse?
      else if record.state.Completed? then decision.IdenticalCompleted? && Some(decision.result) == record.result
      else decision.IdenticalInFlight?
    }

    lemma RetransmissionIs(m: Message, records: Records, decision: AdmissionDecision)
      requires Identified(m) && KeyOf(m).value in records && WellKept(records) ==>
                 var record := records[KeyOf(m).value];
                 decision ==
                 if record.command != BusinessOf(m).value then ConflictingReuse
                 else if record.state.Completed? then IdenticalCompleted(record.result.value)
                 else IdenticalInFlight
      requires WellKept(records)
      ensures Identified(m) && KeyOf(m).value in records ==> Retransmission(m, decision, records[KeyOf(m).value])
    {
    }

    /**
     * The answer to a message under a client identity already taken, from the history of the run: a conflict if the
     * accepted message asked for something else, otherwise that message's own result as soon as there is one.
     */
    ghost predicate Answers(m: Message, decision: AdmissionDecision, accepted: seq<Message>, completed: nat,
                            batches: seq<Batch>)
    {
      forall k | 0 <= k < |accepted| && SharesIdentity(m, accepted[k]) ::
        if !SameCommand(m, accepted[k]) then decision.ConflictingReuse?
        else if k < completed then k < |batches| && decision == IdenticalCompleted(batches[k])
        else decision.IdenticalInFlight?
    }

    lemma RetransmissionAnswers(m: Message, decision: AdmissionDecision, records: Records, accepted: seq<Message>,
                                sequenced: nat, completed: nat, batches: seq<Batch>)
      requires Recorded(records, accepted, sequenced, completed, batches) && Identified(m)
      requires KeyOf(m).value in records ==> Retransmission(m, decision, records[KeyOf(m).value])
      ensures Answers(m, decision, accepted, completed, batches)
    {
      hide KeyOf, BusinessOf, Recorded, SameCommand;
      RecordedKeysAreDistinct(records, accepted, sequenced, completed, batches);
      forall k | 0 <= k < |accepted| && SharesIdentity(m, accepted[k])
        ensures if !SameCommand(m, accepted[k]) then decision.ConflictingReuse?
                else if k < completed then k < |batches| && decision == IdenticalCompleted(batches[k])
                else decision.IdenticalInFlight?
      {
        RecordOf(records, accepted, sequenced, completed, batches, k);
        KeyAndBusinessDecide(m, accepted[k]);
      }
    }

    lemma AdmittedIsWellKept()
      requires Valid()
      ensures WellKept(index.records)
    {
      hide Sequencing, Matching, Delivering, Recorded;
      RecordedIsWellKept(index.records, accepted, |live|, completed, batches);
    }

    lemma WriterIsValid()
      requires Valid()
      ensures writer.Valid()
    {
      hide Matching, Admitted, Delivering, Writer.Valid, InAcceptanceOrder, Journaled;
    }

    lemma FrameSizeIs(m: Message, frameSize: Option<nat>)
      requires frameSize == if Journalable(writer.header, m) then Some(FrameBytes(writer.header, m)) else None
      ensures FrameBytes(writer.header, m) == if frameSize.Some? then frameSize.value else 0
    {
      hide Journalable;
    }

    /** Reservation, staging and accounting of one command. */
    method Stage(m: Message, frameSize: Option<nat>, capacityAvailable: bool) returns (decision: AdmissionDecision)
      requires Valid() && Accounted()
      requires !IsNewOrder(m) ==> m.orderId == 0
      requires FrameBytes(writer.header, m) == if frameSize.Some? then frameSize.value else 0
      requires capacityAvailable ==>
                 writer.committedByteCount + acceptedNotAppendedBytes + FrameBytes(writer.header, m) <= writer.header.maxBytes
      modifies this`ingress, this`accepted, this`acceptedNotAppendedCommands, this`acceptedNotAppendedBytes, index`records
      ensures Valid() && Accounted()
      ensures decision.FirstSubmission? ==>
                && accepted == old(accepted) + [m] && ingress == old(ingress) + [m] && capacityAvailable
                && acceptedNotAppendedCommands == old(acceptedNotAppendedCommands) + 1
                && acceptedNotAppendedBytes == old(acceptedNotAppendedBytes) + FrameBytes(writer.header, m)
      ensures !decision.FirstSubmission? ==> accepted == old(accepted) && ingress == old(ingress)
      ensures decision.InvalidArgument? <==> !Identified(m)
      ensures decision.FirstSubmission? ==> Identified(m) && KeyOf(m).value !in old(index.records) && old(index.admissionOpen)
      ensures Identified(m) && KeyOf(m).value in old(index.records) ==>
                Retransmission(m, decision, old(index.records)[KeyOf(m).value])
      ensures Identified(m) ==> Answers(m, decision, old(accepted), completed, batches)
      ensures Identified(m) && old(IsNew(m)) ==> decision == old(FirstAnswer(capacityAvailable))
    {
      hide *;
      ValidParts();
      AdmittedIsWellKept();
      AdmittedMeans();
      if Identified(m) && |index.records| < index.capacity && |ingress| < submissionCapacity && capacityAvailable {
        IdentifiedHas(m);
        if KeyOf(m).value !in index.records {
          AcceptanceOutcome(m, FrameBytes(writer.header, m));
        }
      }
      if Identified(m) {
        NewIsUnrecorded(m);
      }
      FirstAnswerIs(capacityAvailable);
      ghost var before := index.records;
      var staged;
      decision, staged := index.ReserveAndStage(m, ingress, submissionCapacity, capacityAvailable);
      RetransmissionIs(m, before, decision);
      if Identified(m) {
        RetransmissionAnswers(m, decision, before, accepted, |live|, completed, batches);
      }
      if decision.FirstSubmission? {
        Accept(m, staged, frameSize);
      } else {
        AdmittedMeans();
        WholeIsValid();
      }
    }

    lemma AdmittedMeans()
      ensures Admitted() <==>
              && index.run == writer.header.run && index.capacity == writer.header.maxCommands
              && Recorded(index.records, accepted, |live|, completed, batches)
    {
      hide Recorded;
    }

    /** Publishes a command whose record is in place. */
    method Accept(ghost m: Message, staged: seq<Message>, frameSize: Option<nat>)
      requires Sequencing() && Matching() && Delivering() && Accounted()
      requires index.run == writer.header.run && index.capacity == writer.header.maxCommands
      requires staged == ingress + [m] && |ingress| < submissionCapacity
      requires FrameBytes(writer.header, m) == if frameSize.Some? then frameSize.value else 0
      requires InAcceptanceOrder(accepted + [m], live, Held(), ingress + [m]) && PlainCancels(accepted + [m])
      requires Recorded(index.records, accepted + [m], |live|, completed, batches)
      requires Correlated(book.run, accepted + [m], batches)
      requires Reserves(writer.header, accepted + [m], writer.committed, acceptedNotAppendedCommands + 1,
                        acceptedNotAppendedBytes + FrameBytes(writer.header, m))
      modifies this`ingress, this`accepted, this`acceptedNotAppendedCommands, this`acceptedNotAppendedBytes
      ensures Valid() && Accounted()
      ensures accepted == old(accepted) + [m] && ingress == old(ingress) + [m]
      ensures acceptedNotAppendedCommands == old(acceptedNotAppendedCommands) + 1
      ensures acceptedNotAppendedBytes == old(acceptedNotAppendedBytes) + FrameBytes(writer.header, m)
    {
      hide InAcceptanceOrder, Journaled, PlainCancels, MatchedInOrder, ResultsInOrder, KnowsInstruments, FrameBytes,
           Recorded, Reserves, Writer.Valid, MatchingState.Valid, Delivering, Correlated, InFlight, Journal;
      ingress := staged;
      accepted := accepted + [m];
      acceptedNotAppendedCommands := acceptedNotAppendedCommands + 1;
      if frameSize.Some? {
        acceptedNotAppendedBytes := acceptedNotAppendedBytes + frameSize.value;
      }
    }

    /** Everything accepted uses up one of the two limits of the run. */
    ghost predicate CapacityIsExhausted()
      reads this`acceptedNotAppendedCommands, this`acceptedNotAppendedBytes, writer
    {
      || writer.committedCommandCount + acceptedNotAppendedCommands == writer.header.maxCommands
      || writer.committedByteCount + acceptedNotAppendedBytes == writer.header.maxBytes
    }

    lemma ExhaustedMeans()
      ensures CapacityIsExhausted() <==>
              || writer.committedCommandCount + acceptedNotAppendedCommands == writer.header.maxCommands
              || writer.committedByteCount + acceptedNotAppendedBytes == writer.header.maxBytes
    {
    }

    /**
     * Submission to a run that is ready. A first submission is the only thing that is accepted, and its place in the
     * journal is set aside; the command that uses up the run's capacity, or finds it used up, closes admission.
     */
    method Submit(m: Message) returns (decision: AdmissionDecision)
      requires Valid() && Accounted() && journalAppendFailure.None?
      requires !IsNewOrder(m) ==> m.orderId == 0
      modifies this`ingress, this`accepted, this`acceptedNotAppendedCommands, this`acceptedNotAppendedBytes,
               this`capacityTransitionPending, index
      ensures Valid() && Accounted()
      ensures decision.FirstSubmission? ==> accepted == old(accepted) + [m] && ingress == old(ingress) + [m]
      ensures !decision.FirstSubmission? ==> accepted == old(accepted) && ingress == old(ingress)
      ensures decision.InvalidArgument? <==> !Identified(m)
      ensures decision.FirstSubmission? ==> Identified(m) && KeyOf(m).value !in old(index.records) && old(index.admissionOpen)
      ensures Identified(m) && KeyOf(m).value in old(index.records) ==>
                Retransmission(m, decision, old(index.records)[KeyOf(m).value])
      ensures Identified(m) ==> Answers(m, decision, old(accepted), completed, batches)
      ensures index.admissionOpen ==> old(index.admissionOpen)
      ensures (old(capacityTransitionPending) ==> !old(index.admissionOpen)) ==>
                (capacityTransitionPending ==> !index.admissionOpen)
      ensures decision == AdmissionUnavailable(RunCapacityReached) ==> capacityTransitionPending
      ensures decision.FirstSubmission? ==>
                (capacityTransitionPending <==>
                 old(capacityTransitionPending) || (Journalable(writer.header, m) && CapacityIsExhausted()))
      ensures !decision.FirstSubmission? && decision != AdmissionUnavailable(RunCapacityReached) ==>
                capacityTransitionPending == old(capacityTransitionPending) && index.admissionOpen == old(index.admissionOpen)
      ensures Identified(m) && old(IsNew(m)) ==> decision == old(FirstAnswer(HasRoomFor(m)))
    {
      hide *;
      ValidParts();
      var frameSize := ProspectiveFrameSize(m);
      FrameSizeIs(m, frameSize);
      RoomMeans(m, frameSize);
      WriterIsValid();
      var capacityAvailable, exhaustsCapacity := CheckCapacity(frameSize);
      decision := Stage(m, frameSize, capacityAvailable);
      ExhaustedMeans();
      ValidParts();
      if decision.FirstSubmission? {
        if exhaustsCapacity {
          capacityTransitionPending := true;
          index.admissionOpen := false;
        }
      } else if decision == AdmissionUnavailable(RunCapacityReached) {
        capacityTransitionPending := true;
        index.admissionOpen := false;
      }
      WholeIsValid();
    }

    /** The submission of a run that is not ready, or about to reach its capacity: it answers, and accepts nothing. */
    method SubmitClosed(m: Message, capacityAvailable: bool) returns (decision: AdmissionDecision)
      requires Valid() && !index.admissionOpen
      modifies index`records
      ensures Valid() && index.records == old(index.records)
      ensures !decision.FirstSubmission?
      ensures decision.InvalidArgument? <==> !Identified(m)
      ensures Identified(m) && KeyOf(m).value in index.records ==> Retransmission(m, decision, index.records[KeyOf(m).value])
      ensures Identified(m) ==> Answers(m, decision, accepted, completed, batches)
      ensures Identified(m) && IsNew(m) ==>
                decision == AdmissionUnavailable(if capacityAvailable then ExchangeRunUnavailable else RunCapacityReached)
    {
      hide *;
      ValidParts();
      AdmittedMeans();
      AdmittedIsWellKept();
      if Identified(m) {
        NewIsUnrecorded(m);
      }
      var staged;
      decision, staged := index.ReserveAndStage(m, ingress, submissionCapacity, capacityAvailable);
      RetransmissionIs(m, index.records, decision);
      if Identified(m) {
        RetransmissionAnswers(m, decision, index.records, accepted, |live|, completed, batches);
      }
      AdmittedMeans();
      WholeIsValid();
    }

    // ----- Popping deliveries

    method TryPopPrivateResultBatch() returns (popped: Option<seq<RecipientResult>>)
      requires Valid()
      modifies this`privateResults, this`queuedPrivateEvents, this`poppedPrivate
      ensures Valid()
      ensures if popped.Some?
              then old(privateResults) == [popped.value] + privateResults && poppedPrivate == old(poppedPrivate) + [popped.value]
              else old(privateResults) == privateResults == [] && poppedPrivate == old(poppedPrivate)
    {
      hide *;
      ValidParts();
      if privateResults == [] {
        return None;
      }
      var batch := PopPrivate();
      WholeIsValid();
      popped := Some(batch);
    }

    method PopPrivate() returns (batch: seq<RecipientResult>)
      requires Delivering() && privateResults != []
      modifies this`privateResults, this`queuedPrivateEvents, this`poppedPrivate
      ensures Delivering()
      ensures batch == old(privateResults)[0] && privateResults == old(privateResults)[1..]
      ensures poppedPrivate == old(poppedPrivate) + [batch]
    {
      hide *;
      DeliveringMeans();
      QueuedEventsFront(privateResults);
      batch := privateResults[0];
      MoveFront(handedPrivate, poppedPrivate, privateResults);
      queuedPrivateEvents := queuedPrivateEvents - EventCount(batch);
      privateResults := privateResults[1..];
      poppedPrivate := poppedPrivate + [batch];
      DeliveringMeans();
    }

    lemma DeliveringMeans()
      ensures Delivering() <==>
              && 2 * MAX_EVENTS_PER_COMMAND <= privateEventCapacity && MAX_EVENTS_PER_COMMAND <= publicRecordCapacity
              && Delivered(batches, first, completed, dispatch, handedPrivate, handedPublic)
              && handedPrivate == poppedPrivate + privateResults
              && handedPublic == poppedPublic + publicTrades
              && queuedPrivateEvents == QueuedEvents(privateResults) <= privateEventCapacity
              && queuedPublicRecords == |Flatten(publicTrades)| <= publicRecordCapacity
              && (dispatch.pending.Some? ==> dispatch.privateResults != [] || dispatch.publicTrades != [])
    {
      hide Delivered, Flatten, QueuedEvents;
    }

    method TryPopPublicTradeBatch() returns (popped: Option<seq<PublicTrade>>)
      requires Valid()
      modifies this`publicTrades, this`queuedPublicRecords, this`poppedPublic
      ensures Valid()
      ensures if popped.Some?
              then old(publicTrades) == [popped.value] + publicTrades && poppedPublic == old(poppedPublic) + [popped.value]
              else old(publicTrades) == publicTrades == [] && poppedPublic == old(poppedPublic)
    {
      hide *;
      ValidParts();
      if publicTrades == [] {
        return None;
      }
      var batch := PopPublic();
      WholeIsValid();
      popped := Some(batch);
    }

    method PopPublic() returns (batch: seq<PublicTrade>)
      requires Delivering() && publicTrades != []
      modifies this`publicTrades, this`queuedPublicRecords, this`poppedPublic
      ensures Delivering()
      ensures batch == old(publicTrades)[0] && publicTrades == old(publicTrades)[1..]
      ensures poppedPublic == old(poppedPublic) + [batch]
    {
      hide *;
      DeliveringMeans();
      FlattenFront(publicTrades);
      batch := publicTrades[0];
      MoveFront(handedPublic, poppedPublic, publicTrades);
      assert |Flatten(publicTrades)| == |batch| + |Flatten(publicTrades[1..])|;
      queuedPublicRecords := queuedPublicRecords - |batch|;
      publicTrades := publicTrades[1..];
      poppedPublic := poppedPublic + [batch];
      DeliveringMeans();
    }

    // ----- What the invariant says about a run

    /**
     * Exactly once, in acceptance order: the stages hold consecutive accepted commands, numbered without gaps. Nothing
     * is in two stages, nothing is lost between them, and matching only ever sees committed commands.
     */
    lemma EveryCommandInOneStage()
      requires Valid()
      ensures |accepted| == completed + |results| + |AsSeq(pendingCommandResult)| + |matching| + |AsSeq(pendingCommand)| + |ingress|
      ensures |live| == |writer.committed| <= |accepted| < U64_LIMIT
      ensures forall k | 0 <= k < |live| ::
                live[k] == Numbered(accepted[k], k + 1) && CommandOf(writer.header, live[k]) == Some(writer.committed[k])
      ensures |batches| == completed + |results| + |AsSeq(pendingCommandResult)| <= |live|
      ensures |accepted| == |live| + |AsSeq(Held())| + |ingress|
      ensures forall k | 0 <= k < |results| :: results[k] == batches[completed + k] && results[k].correlation.sequence == completed + k + 1
      ensures forall k | 0 <= k < |matching| :: |batches| + k < |live| && matching[k] == live[|batches| + k]
      ensures pendingCommand.Some? && pendingReadyForMatching ==> 0 < |live| && pendingCommand.value == live[|live| - 1]
      ensures forall k | 0 <= k < |ingress| :: ingress[k] == accepted[|accepted| - |ingress| + k]
    {
      hide Writer.Valid, MatchingState.Valid, KnowsInstruments, CommandOf, Numbered, Recorded, Delivered, Run, RunSucceeds,
           PlainCancels;
      forall k | 0 <= k < |results|
        ensures results[k] == batches[completed + k]
      {
        assert results[k] == batches[completed..][k];
      }
      forall k | 0 <= k < |matching|
        ensures |batches| + k < |live| && matching[k] == live[|batches| + k]
      {
        assert matching[k] == live[|batches|..][k];
      }
      if pendingCommand.Some? && pendingReadyForMatching {
        assert live[|batches|..][|matching|] == pendingCommand.value;
      }
    }

    /** The capacity accounting of a run never exceeds its limits, whatever has been submitted. */
    lemma CapacityIsNeverExceeded()
      requires Valid() && Accounted()
      ensures |writer.committed| + acceptedNotAppendedCommands == |index.records| <= writer.header.maxCommands
      ensures |Journal(writer.header, writer.committed)| + acceptedNotAppendedBytes <= writer.header.maxBytes
    {
      WriterCounts(writer);
      RecordedKeysAreDistinct(index.records, accepted, |live|, completed, batches);
      hide Writer.Valid, MatchingState.Valid, Recorded, Delivered, WaitingBytes, Journal;
    }

    /** Replaying what was committed gives results of which the live results are a prefix. */
    lemma CommittedReplays()
      requires Valid()
      ensures RunSucceeds(writer.header.run, MessagesFrom(writer.committed))
      ensures batches <= Run(writer.header.run, MessagesFrom(writer.committed)).batches
      ensures |batches| == |live| ==>
                Run(writer.header.run, MessagesFrom(writer.committed)) == Ran(book.Resting(), batches)
    {
      hide Writer.Valid, MatchingState.Valid, InAcceptanceOrder, Journaled, PlainCancels, KnowsInstruments, Fits,
           MatchedInOrder, Recorded, Delivered, Run, RunSucceeds, Correlated, ResultsInOrder, InFlight;
      WriterCounts(writer);
      ReplayEqualsLive(writer.header, accepted, live, writer.committed, Held(), ingress, matching, Ready(),
                       book.Resting(), batches);
    }

    /** What a restart reads from the journal of this path. */
    ghost function Reloaded(): seq<Command>
      requires !Parse(writer.file.bytes).Corruption?
      reads writer.file
    {
      Parse(writer.file.bytes).commands
    }

    lemma ReloadedIs()
      ensures !Parse(writer.file.bytes).Corruption? ==> Reloaded() == Parse(writer.file.bytes).commands
    {
      hide Parse;
    }

    /**
     * At every moment the journal file loads, as the committed commands or as those and the one command whose append
     * failed: each is an accepted message in its acceptance order, under the number of its place.
     */
    lemma FileHolds()
      requires Valid()
      ensures !Parse(writer.file.bytes).Corruption? && Parse(writer.file.bytes).header == writer.header
      ensures KnowsInstruments(writer.header) && Fits(writer.header, Reloaded())
      ensures |writer.committed| <= |Reloaded()| <= |accepted| < U64_LIMIT && writer.committed <= Reloaded()
      ensures Reloaded() == writer.committed ||
              (Held().Some? && CommandOf(writer.header, Held().value).Some? &&
               Reloaded() == writer.committed + [CommandOf(writer.header, Held().value).value])
      ensures forall k | 0 <= k < |Reloaded()| ::
                CommandOf(writer.header, Numbered(accepted[k], k + 1)) == Some(Reloaded()[k])
    {
      hide *;
      ValidParts();
      SequencingMeans();
      EveryCommandInOneStage();
      ReopensAsCommitted(writer);
      ReloadedIs();
      WriterKeeps(writer);
      var n := |live|;
      HeldIs(accepted, live, Held(), ingress);
      if Reloaded() != writer.committed {
        AttemptIs(writer.header, writer.committed, writer.attempted, Held());
        NumberDoesNotMatter(writer.header, accepted[n], n + 1);
        CommandAsIs(writer.header, accepted[n], n + 1);
      }
    }

    lemma SequencingMeans()
      requires Sequencing()
      ensures writer.Valid() && KnowsInstruments(writer.header) && InAcceptanceOrder(accepted, live, Held(), ingress)
      ensures InFlight(writer.header, writer.committed, writer.attempted, Held())
    {
      hide Writer.Valid, KnowsInstruments, InAcceptanceOrder, InFlight, Journaled, PlainCancels;
    }

    /**
     * Recovery equals live: whatever the journal file of a running or failed path loads as, replaying it succeeds, the
     * live results are a prefix of the replayed ones, and the replay passes through the live book itself.
     */
    lemma RecoveryEqualsLive()
      requires Valid()
      ensures !Parse(writer.file.bytes).Corruption? && Parse(writer.file.bytes).header == writer.header
      ensures writer.committed <= Reloaded() && (Held().None? ==> Reloaded() == writer.committed)
      ensures RunSucceeds(writer.header.run, MessagesFrom(Reloaded()))
      ensures batches <= Run(writer.header.run, MessagesFrom(Reloaded())).batches
      ensures |batches| == |live| ==>
                && |live| <= |MessagesFrom(Reloaded())|
                && RunSucceeds(writer.header.run, MessagesFrom(Reloaded())[..|live|])
                && Run(writer.header.run, MessagesFrom(Reloaded())[..|live|]) == Ran(book.Resting(), batches)
    {
      hide *;
      FileHolds();
      CommittedReplays();
      EveryCommandInOneStage();
      var run, n, ms := writer.header.run, |writer.committed|, MessagesFrom(Reloaded());
      JournalReplays(writer.header, Reloaded());
      MessagesPrefix(Reloaded(), n);
      assert Reloaded()[..n] == writer.committed;
      RunPrefix(run, ms, n);
    }

    /** A journaled command has the identity and the business content of the message it was made from. */
    lemma ReloadedIdentity(k: nat)
      requires Valid() && !Parse(writer.file.bytes).Corruption? && k < |Reloaded()|
      ensures k < |accepted| && Identified(accepted[k])
      ensures KeyOf(MessageFrom(Reloaded()[k])) == KeyOf(accepted[k])
      ensures BusinessOf(MessageFrom(Reloaded()[k])) == BusinessOf(accepted[k])
    {
      hide *;
      FileHolds();
      ValidParts();
      AdmittedMeans();
      RecordOf(index.records, accepted, |live|, completed, batches, k);
      SameIdentity(writer.header, accepted[k], k + 1, Reloaded()[k]);
    }

    lemma SameIdentity(h: Header, m: Message, n: u64, c: Command)
      requires n > 0 && Identified(m) && CommandOf(h, Numbered(m, n)) == Some(c)
      ensures KeyOf(MessageFrom(c)) == KeyOf(m) && BusinessOf(MessageFrom(c)) == BusinessOf(m)
    {
    }

    /** No two commands the journal file of a path loads as share a client identity, so recovery never refuses it. */
    lemma JournalKeysAreDistinct()
      requires Valid()
      ensures !Parse(writer.file.bytes).Corruption? && DistinctKeys(MessagesFrom(Reloaded()))
    {
      hide *;
      FileHolds();
      ValidParts();
      AdmittedMeans();
      RecordedKeysAreDistinct(index.records, accepted, |live|, completed, batches);
      forall k | 0 <= k < |Reloaded()|
        ensures KeyOf(MessageFrom(Reloaded()[k])) == KeyOf(accepted[k])
      {
        ReloadedIdentity(k);
      }
      KeysCarryOver(Reloaded(), accepted);
    }

    /** `rebuilt` is the admission index that recovery rebuilds from the journal file. */
    ghost predicate RebuiltFrom(rebuilt: Records)
      reads this, writer, writer.file
    {
      !Parse(writer.file.bytes).Corruption? && Rebuilds(writer.header.run, Reloaded(), rebuilt)
    }

    /**
     * A restart keeps every completed result: an index rebuilt from the journal file, as admission recovery always can,
     * answers a retransmission of a completed command with the result the live index answers it with.
     */
    lemma RestartKeepsResults(rebuilt: Records, k: nat)
      requires Valid() && k < completed && RebuiltFrom(rebuilt)
      ensures k < |accepted| && Identified(accepted[k])
      ensures KeyOf(accepted[k]).value in index.records && KeyOf(accepted[k]).value in rebuilt
      ensures rebuilt[KeyOf(accepted[k]).value] == index.records[KeyOf(accepted[k]).value]
      ensures rebuilt[KeyOf(accepted[k]).value].state.Completed?
    {
      hide *;
      RebuiltMeans(rebuilt);
      RecoveryEqualsLive();
      EveryCommandInOneStage();
      ReloadedIdentity(k);
      ValidParts();
      AdmittedMeans();
      var ms := MessagesFrom(Reloaded());
      var replayed := Run(writer.header.run, ms).batches;
      IdentifiedHas(accepted[k]);
      MessagesPrefix(Reloaded(), |Reloaded()|);
      MessageAt(Reloaded(), k);
      RecordedKeysAreDistinct(rebuilt, ms, |Reloaded()|, |Reloaded()|, replayed);
      RecordedKeysAreDistinct(index.records, accepted, |live|, completed, batches);
      RecordOf(index.records, accepted, |live|, completed, batches, k);
      RecordOf(rebuilt, ms, |Reloaded()|, |Reloaded()|, replayed, k);
      assert batches[k] == replayed[k];
      SameRecord(accepted, |live|, completed, batches, ms, |Reloaded()|, replayed, k);
    }

    lemma RebuiltMeans(rebuilt: Records)
      requires RebuiltFrom(rebuilt)
      ensures !Parse(writer.file.bytes).Corruption?
      ensures RunSucceeds(writer.header.run, MessagesFrom(Reloaded()))
      ensures Recorded(rebuilt, MessagesFrom(Reloaded()), |Reloaded()|, |Reloaded()|,
                       Run(writer.header.run, MessagesFrom(Reloaded())).batches)
    {
      hide Parse, Run, RunSucceeds, Recorded, Reloaded;
    }

    /** All of them at once, and nothing else about the live index is needed. */
    lemma EveryResultSurvives(rebuilt: Records)
      requires Valid() && RebuiltFrom(rebuilt)
      ensures ResultsSurvive(index.records, rebuilt)
    {
      hide *;
      ValidParts();
      AdmittedMeans();
      forall key | key in index.records && index.records[key].state.Completed?
        ensures key in rebuilt && rebuilt[key] == index.records[key]
      {
        var k := CompletedAt(index.records, accepted, |live|, completed, batches, key);
        RestartKeepsResults(rebuilt, k);
      }
      SurviveMeans(index.records, rebuilt);
    }

    /** A restart of a path with nothing in flight rebuilds exactly the admission index it had. */
    lemma DrainedRestartIsExact(rebuilt: Records)
      requires Valid() && ProcessingDrained() && RebuiltFrom(rebuilt)
      ensures rebuilt == index.records
    {
      hide *;
      RebuiltMeans(rebuilt);
      RecoveryEqualsLive();
      DrainedCounts();
      ValidParts();
      AdmittedMeans();
      JournalIsAccepted();
      var ms, n := MessagesFrom(Reloaded()), |Reloaded()|;
      MessagesPrefix(Reloaded(), n);
      assert ms[..n] == ms;
      RecordedSameCommands(index.records, accepted, ms, n, n, batches);
      RecordsAreDetermined(rebuilt, index.records, ms, n, n, batches);
    }

    lemma DrainedCounts()
      requires Valid() && ProcessingDrained()
      ensures Held().None? && |accepted| == |live| == |writer.committed| == |batches| == completed
    {
      hide Sequencing, Matching, Admitted, Delivering;
      EveryCommandInOneStage();
    }

    lemma JournalIsAccepted()
      requires Valid() && !Parse(writer.file.bytes).Corruption? && |Reloaded()| == |accepted|
      ensures |MessagesFrom(Reloaded())| == |accepted|
      ensures forall k | 0 <= k < |accepted| ::
                && KeyOf(accepted[k]) == KeyOf(MessagesFrom(Reloaded())[k])
                && BusinessOf(accepted[k]) == BusinessOf(MessagesFrom(Reloaded())[k])
    {
      hide *;
      MessagesPrefix(Reloaded(), |Reloaded()|);
      forall k | 0 <= k < |accepted|
        ensures KeyOf(accepted[k]) == KeyOf(MessagesFrom(Reloaded())[k])
        ensures BusinessOf(accepted[k]) == BusinessOf(MessagesFrom(Reloaded())[k])
      {
        ReloadedIdentity(k);
        MessageAt(Reloaded(), k);
      }
    }

    /** Nothing the journal has no form for is ever committed, so such a command is where its run stops. */
    lemma CommittedAreJournalable(k: nat)
      requires Valid() && k < |writer.committed|
      ensures k < |accepted| && Journalable(writer.header, accepted[k])
    {
      hide *;
      EveryCommandInOneStage();
      ValidParts();
      SequencingMeans();
      WriterKeeps(writer);
      FitsAt(writer.header, writer.committed, k);
      NumberDoesNotMatter(writer.header, accepted[k], k + 1);
    }

    /**
     * Once processing and the delivery queues are drained, nothing accepted is outstanding: everything is committed,
     * matched and completed, and every result since installation has been popped, to each client and to the public.
     */
    lemma DrainedMeansDelivered()
      requires Valid() && ProcessingDrained() && ResultHandoffsDrained()
      ensures |accepted| == |writer.committed| == |batches| == completed
      ensures |poppedPrivate| == completed - first
      ensures forall k | 0 <= k < |poppedPrivate| :: IsFanOut(batches[first + k], poppedPrivate[k])
      ensures first <= completed && poppedPublic == TradeBatches(batches[first..])
    {
      hide *;
      DrainedCounts();
      HandoffsAreDrained();
      ValidParts();
      DeliveringMeans();
      DeliveredAll(batches, first, completed, dispatch, handedPrivate, handedPublic);
      assert poppedPrivate + [] == poppedPrivate && poppedPublic + [] == poppedPublic;
    }

    lemma HandoffsAreDrained()
      requires ResultHandoffsDrained()
      ensures privateResults == [] && publicTrades == [] && dispatch.privateResults == [] && dispatch.publicTrades == []
    {
    }

    lemma NumberedIs(h: Header, m: Message, n: u64)
      requires n > 0
      ensures Numbered(m, n) == if IsNewOrder(m) then m.(sequence := n, orderId := n) else m.(sequence := n)
      ensures CommandOf(h, Numbered(m, n)) == CommandOf(h, m.(sequence := n))
    {
      NumberDoesNotMatter(h, m, n);
    }

    lemma NumberedKeepsIdentity(m: Message, n: u64)
      ensures KeyOf(Numbered(m, n)) == KeyOf(m) && BusinessOf(Numbered(m, n)) == BusinessOf(m)
      ensures Numbered(m, n).sequence == n
    {
    }
  }

  /** The admission index rebuilt by replaying these commands. */
  ghost predicate Rebuilds(run: u64, commands: seq<Command>, records: Records) {
    && RunSucceeds(run, MessagesFrom(commands))
    && Recorded(records, MessagesFrom(commands), |commands|, |commands|, Run(run, MessagesFrom(commands)).batches)
  }

  /** Every completed result is answered as before. */
  ghost predicate ResultsSurvive(before: Records, after: Records) {
    forall key | key in before && before[key].state.Completed? :: key in after && after[key] == before[key]
  }

  lemma SurviveMeans(before: Records, after: Records)
    ensures ResultsSurvive(before, after) <==>
            forall key | key in before && before[key].state.Completed? :: key in after && after[key] == before[key]
  {
  }

  /** A completed record is that of a command whose result has been taken up. */
  lemma CompletedAt(records: Records, accepted: seq<Message>, sequenced: nat, completed: nat, batches: seq<Batch>,
                    key: AdmissionKey)
    returns (k: nat)
    requires Recorded(records, accepted, sequenced, completed, batches)
    requires key in records && records[key].state.Completed?
    ensures k < completed && k < |accepted| && KeyOf(accepted[k]) == Some(key)
  {
    hide KeyOf, BusinessOf;
    k :| 0 <= k < |accepted| && KeyOf(accepted[k]) == Some(key);
    assert records[KeyOf(accepted[k]).value] == RecordAt(accepted, sequenced, completed, batches, k);
  }

  /** The oldest queued result carries the identity of the oldest sequenced record. */
  lemma ResultIdentity(records: Records, accepted: seq<Message>, sequenced: nat, completed: nat, batches: seq<Batch>,
                       run: u64)
    requires Recorded(records, accepted, sequenced, completed, batches) && Correlated(run, accepted, batches)
    requires completed < |batches|
    ensures var correlation := batches[completed].correlation;
            && correlation.clientId != 0 && correlation.sequence == completed + 1 && correlation.run == run
            && KeyOf(accepted[completed]) == Some(AdmissionKey(correlation.clientId, correlation.clientCommandId))
            && 1 <= |batches[completed].events| <= MAX_EVENTS_PER_COMMAND
  {
    assert Identified(accepted[completed]);
  }

  lemma IdleDispatch(batches: seq<Batch>, first: nat, completed: nat, d: Dispatch,
                     handedPrivate: seq<seq<RecipientResult>>, handedPublic: seq<seq<PublicTrade>>)
    requires Delivered(batches, first, completed, d, handedPrivate, handedPublic) && d.pending.None?
    ensures d == IDLE
  {
    hide IsFanOut;
  }

  lemma AgreesDone(reply: Reply, after: Book, before: Book, spec: Outcome)
    requires Agrees(reply, after, before, spec) && spec.Done?
    ensures reply == Replied(spec.batch) && after == spec.book
  {
  }

  lemma MatchedCount(run: u64, live: seq<Message>, matching: seq<Message>, ready: Option<Message>, resting: Book,
                     batches: seq<Batch>)
    requires MatchedInOrder(run, live, matching, ready, resting, batches)
    ensures |batches| <= |live|
  {
    hide Run, RunSucceeds;
  }

  lemma CorrelatedMore(run: u64, accepted: seq<Message>, batches: seq<Batch>, m: Message)
    requires Correlated(run, accepted, batches) && |accepted| + 1 < U64_LIMIT
    ensures Correlated(run, accepted + [m], batches)
  {
  }

  lemma KeysCarryOver(commands: seq<Command>, accepted: seq<Message>)
    requires |commands| <= |accepted| && DistinctKeys(accepted)
    requires forall k | 0 <= k < |commands| :: KeyOf(MessageFrom(commands[k])) == KeyOf(accepted[k])
    ensures DistinctKeys(MessagesFrom(commands))
  {
    hide KeyOf, MessageFrom;
  }

  lemma MoveFront<T>(all: seq<T>, front: seq<T>, rest: seq<T>)
    requires all == front + rest && rest != []
    ensures all == (front + [rest[0]]) + rest[1..]
  {
  }

  lemma DeliveredAll(batches: seq<Batch>, first: nat, completed: nat, d: Dispatch,
                     handedPrivate: seq<seq<RecipientResult>>, handedPublic: seq<seq<PublicTrade>>)
    requires Delivered(batches, first, completed, d, handedPrivate, handedPublic) && completed == |batches|
    requires d.privateResults == [] && d.publicTrades == []
    ensures first <= completed && |handedPrivate| == completed - first
    ensures forall k | 0 <= k < |handedPrivate| :: IsFanOut(batches[first + k], handedPrivate[k])
    ensures handedPublic == TradeBatches(batches[first..])
  {
    hide IsFanOut, TradeBatches, Pending;
    assert batches[first..completed] == batches[first..];
  }

  lemma FitsAt(h: Header, commands: seq<Command>, k: nat)
    requires Fits(h, commands) && k < |commands|
    ensures InContext(h, commands[k], k + 1)
  {
    hide Journal, InContext;
  }

  /** Which of the messages admission accepts the journal has a form for. */
  lemma JournalableIff(h: Header, m: Message)
    requires WellFormed(h) && Identified(m)
    ensures Journalable(h, m) <==>
            && m.configurationVersion < U32_LIMIT && Instrument(m.instrumentId, m.configurationVersion) in h.instruments
            && (IsNewOrder(m) ==> m.tif == GTC || m.tif == IOC)
  {
    hide FrameSize, HasConfiguration;
    if m.configurationVersion < U32_LIMIT {
      ListedIffConfigured(h, m.instrumentId, m.configurationVersion);
    }
  }

  /** Admission accepts this order, and no journal has a form for it. */
  lemma AcceptedWithoutForm(h: Header)
    ensures var m := Message(0, None, 0, 7, Some([120]), 1, 1, 10, 5, BUY, FOK);
            Identified(m) && !Journalable(h, m)
  {
  }

  lemma WriterKeeps(writer: Writer)
    requires writer.Valid()
    ensures Fits(writer.header, writer.committed) && Fits(writer.header, writer.attempted)
    ensures writer.committed <= writer.attempted
  {
    hide Journal, Fits;
  }

  lemma HeldIs(accepted: seq<Message>, live: seq<Message>, held: Option<Message>, ingress: seq<Message>)
    requires InAcceptanceOrder(accepted, live, held, ingress)
    ensures |live| + |AsSeq(held)| <= |accepted| < U64_LIMIT
    ensures |AsSeq(held)| == if held.Some? then 1 else 0
    ensures held.Some? ==> |live| < |accepted| && held.value == accepted[|live|].(sequence := |live| + 1)
  {
  }

  lemma AttemptIs(h: Header, committed: seq<Command>, attempted: seq<Command>, held: Option<Message>)
    requires InFlight(h, committed, attempted, held) && attempted != committed
    ensures held.Some? && CommandOf(h, held.value).Some?
    ensures attempted == committed + [CommandOf(h, held.value).value]
  {
  }

  lemma CommandAsIs(h: Header, m: Message, n: u64)
    ensures CommandAs(h, m, n) == CommandOf(h, m.(sequence := n))
  {
  }

  lemma MessageAt(commands: seq<Command>, k: nat)
    requires k < |commands|
    ensures |MessagesFrom(commands)| == |commands| && MessagesFrom(commands)[k] == MessageFrom(commands[k])
  {
  }

  /** The records of a completed command agree when its business content and its result do. */
  lemma SameRecord(accepted: seq<Message>, sequenced: nat, completed: nat, batches: seq<Batch>,
                   accepted': seq<Message>, completed': nat, batches': seq<Batch>, k: nat)
    requires k < completed <= |batches| && k < completed' <= |batches'| && batches[k] == batches'[k]
    requires k < |accepted| < U64_LIMIT && k < |accepted'| < U64_LIMIT
    requires BusinessOf(accepted[k]).Some? && BusinessOf(accepted'[k]) == BusinessOf(accepted[k])
    ensures RecordAt(accepted, sequenced, completed, batches, k) ==
            RecordAt(accepted', completed', completed', batches', k)
    ensures RecordAt(accepted, sequenced, completed, batches, k).state.Completed?
  {
  }

  lemma SameForm(h: Header, m: Message, n: u64)
    ensures Journalable(h, m.(sequence := n)) == Journalable(h, m)
  {
    hide InContext, CommandOf;
    assert m.(sequence := n).(sequence := 1) == m.(sequence := 1);
  }

  lemma JournaledCount(h: Header, live: seq<Message>, committed: seq<Command>)
    requires Journaled(h, live, committed)
    ensures |live| == |committed|
  {
  }

  lemma WriterCounts(writer: Writer)
    requires writer.Valid()
    ensures Fits(writer.header, writer.committed) && |writer.committed| + 1 < U64_LIMIT
    ensures writer.committedCommandCount == |writer.committed| && writer.nextCommandSequence == |writer.committed| + 1
    ensures writer.committedByteCount == |Journal(writer.header, writer.committed)|
    ensures writer.usable ==> writer.attempted == writer.committed
  {
    hide Journal, Fits;
  }
}
