/** A run with nothing in flight, as a new journal or the recovery of an existing one leaves it. */
module RecoveredRun {
  import opened LittleEndian
  import opened Domain
  import opened PriceTime
  import opened PriceTimeTheorems
  import opened BookIndex
  import opened MatchingEngine
  import opened JournalFrame
  import opened CommandCodec
  import opened HeaderCodec
  import opened JournalFile
  import opened StorageFile
  import opened JournalWriter
  import opened JournalRecovery
  import opened Admission
  import opened RecordKeeping
  import opened Replay
  import opened AdmissionRecovery
  import opened Stages

  /** Every committed command is matched and its result is on record. */
  ghost predicate Quiescent(h: Header, committed: seq<Command>, resting: Book, records: Records, batches: seq<Batch>) {
    && KnowsInstruments(h) && Fits(h, committed)
    && HasReplayed(h, committed, resting, batches)
    && |batches| == |committed|
    && Recorded(records, MessagesFrom(committed), |committed|, |committed|, batches)
  }

  lemma JournaledMessage(h: Header, c: Command, sequence: nat)
    requires InContext(h, c, sequence) && WellFormed(h)
    ensures CommandOf(h, MessageFrom(c)) == Some(c) && 0 < sequence < U64_LIMIT
    ensures MessageFrom(c) == Numbered(MessageFrom(c), sequence)
    ensures !IsNewOrder(MessageFrom(c)) ==> MessageFrom(c).orderId == 0
  {
    hide HasConfiguration;
  }

  /** The replayed messages serve as the acceptance history of a recovered run. */
  lemma QuiescentStages(h: Header, committed: seq<Command>, resting: Book, records: Records, batches: seq<Batch>)
    requires Quiescent(h, committed, resting, records, batches)
    ensures var ms := MessagesFrom(committed);
            && |ms| == |committed|
            && InAcceptanceOrder(ms, ms, None, []) && Journaled(h, ms, committed) && PlainCancels(ms)
            && MatchedInOrder(h.run, ms, [], None, resting, batches)
            && Correlated(h.run, ms, batches)
            && Recorded(records, ms, |ms|, |ms|, batches)
            && ResultsInOrder(batches, |ms|, [], None)
            && Reserves(h, ms, committed, 0, 0)
  {
    hide Run, RunSucceeds, Journal, FrameOf, InContext, HeaderFrame, CommandOf, MessageFrom, HasConfiguration;
    var ms := MessagesFrom(committed);
    forall k | 0 <= k < |ms|
      ensures CommandOf(h, ms[k]) == Some(committed[k]) && k + 1 < U64_LIMIT && ms[k] == Numbered(ms[k], k + 1)
      ensures !IsNewOrder(ms[k]) ==> ms[k].orderId == 0
    {
      JournaledMessage(h, committed[k], k + 1);
    }
    assert ms[..|ms|] == ms && ms[|ms|..] == [] && batches[|ms|..] == [];
    QuiescentCorrelated(h, committed, resting, records, batches);
  }

  lemma QuiescentCorrelated(h: Header, committed: seq<Command>, resting: Book, records: Records, batches: seq<Batch>)
    requires Quiescent(h, committed, resting, records, batches)
    ensures Correlated(h.run, MessagesFrom(committed), batches)
  {
    hide Run, RunSucceeds, Fits, KnowsInstruments, Recorded;
    var ms := MessagesFrom(committed);
    RecordedKeysAreDistinct(records, ms, |committed|, |committed|, batches);
    forall k | 0 <= k < |batches|
      ensures && ms[k].clientCommandId.Some?
              && batches[k].correlation == Correlation(ms[k].clientId, ms[k].clientCommandId.value, k + 1, h.run)
              && 1 <= |batches[k].events| <= MAX_EVENTS_PER_COMMAND
    {
      ResultAt(h, committed, batches, k);
    }
  }

  const SPY_HEADER: Header := Header(1, 1, MAX_EVENTS_PER_COMMAND, 1000, 1_000_000, [Instrument(1, 1)])

  /** The one configured instrument makes a header that meets every assumption on a run. */
  lemma ConfiguredRunExists()
    ensures WellFormed(SPY_HEADER) && KnowsInstruments(SPY_HEADER)
  {
    assert |SPY_HEADER.instruments| == 1 && SPY_HEADER.instruments[0] == Instrument(1, 1);
  }

  lemma FreshRunIsQuiescent(h: Header)
    requires KnowsInstruments(h) && WellFormed(h)
    ensures Quiescent(h, [], map[], map[], [])
  {
    hide KnowsInstruments, WellFormed, HeaderFrame, Run, RunSucceeds;
    NothingReplayed(h);
    NothingRecorded();
    assert MessagesFrom([]) == [];
    JournalOfNone(h);
    HeaderFits(h);
  }

  lemma HeaderFits(h: Header)
    requires WellFormed(h)
    ensures Fits(h, [])
  {
    hide HeaderFrame;
  }

  /** The file loads as this run, and no two of its commands share a client identity. */
  ghost predicate Recoverable(bytes: seq<byte>, run: u64) {
    && !Parse(bytes).Corruption? && Parse(bytes).header.run == run && Parse(bytes).committed <= MAX_FILE_OFFSET
    && DistinctKeys(MessagesFrom(Parse(bytes).commands))
  }

  lemma RecoverableMeans(bytes: seq<byte>, run: u64)
    requires Recoverable(bytes, run)
    ensures !Parse(bytes).Corruption? && Parse(bytes).header.run == run && Parse(bytes).committed <= MAX_FILE_OFFSET
    ensures Obstacle(Parse(bytes), Some(run)) == None
    ensures DistinctKeys(MessagesFrom(Parse(bytes).commands))
  {
    hide Parse, DistinctKeys;
  }

  /** No call fails, and none is interrupted where the program does not retry: truncating a torn journal. */
  ghost predicate ReadsThrough(fates: seq<Fate>, bytes: seq<byte>) {
    Healthy(fates) && (Uninterrupted(fates) || Parse(bytes).Intact?)
  }

  lemma ReadsThroughMeans(fates: seq<Fate>, bytes: seq<byte>)
    requires ReadsThrough(fates, bytes)
    ensures Healthy(fates) && (Uninterrupted(fates) || !Parse(bytes).IncompleteTail?)
  {
    hide Parse, Healthy, Uninterrupted;
  }

  datatype RunRecoveryOutcome =
    | Recovered
    | PreparationFailed(preparation: RecoveryOutcome)
    | AdmissionFailed(admission: AdmissionRecoveryError)

  /**
   * Prepares the journal, replays it and rebuilds the admission index. Success gives a quiescent run behind a writer
   * that continues it; a file that cannot be recovered keeps loading as the run it held.
   */
  method RecoverRun(file: Descriptor, expectedRun: u64)
    returns (outcome: RunRecoveryOutcome, writer: Writer?, book: MatchingState?, index: AdmissionIndex?,
             ghost batches: seq<Batch>)
    requires file.Valid() && file.position == 0
    requires !Parse(file.bytes).Corruption? ==> KnowsInstruments(Parse(file.bytes).header)
    modifies file
    ensures outcome.Recovered? <==> writer != null && book != null && index != null
    ensures outcome.Recovered? ==>
              && fresh(writer) && fresh(book) && fresh(book.nodes) && fresh(index)
              && writer.Valid() && writer.usable && writer.file == file && writer.header.run == expectedRun
              && book.Valid() && book.run == expectedRun
              && index.run == expectedRun && index.capacity == writer.header.maxCommands && !index.admissionOpen
              && !Parse(old(file.bytes)).Corruption?
              && writer.committed == Parse(old(file.bytes)).commands && writer.header == Parse(old(file.bytes)).header
              && Quiescent(writer.header, writer.committed, book.Resting(), index.records, batches)
    ensures outcome.AdmissionFailed? ==>
              && !Parse(old(file.bytes)).Corruption?
              && !DistinctKeys(MessagesFrom(Parse(old(file.bytes)).commands))
    ensures ReadsThrough(old(file.fates), old(file.bytes)) && Recoverable(old(file.bytes), expectedRun) ==>
              outcome.Recovered?
    ensures !Parse(old(file.bytes)).Corruption? ==> SameRun(old(file.bytes), file.bytes)
  {
    hide *;
    book, index, batches := null, null, [];
    if Recoverable(file.bytes, expectedRun) {
      RecoverableMeans(file.bytes, expectedRun);
    }
    if ReadsThrough(file.fates, file.bytes) {
      ReadsThroughMeans(file.fates, file.bytes);
    }
    var preparation;
    preparation, writer := Prepare(file, Some(expectedRun));
    if writer == null {
      SameRunAsItself(file.bytes);
      outcome := PreparationFailed(preparation);
      return;
    }
    var h, commands := writer.header, preparation.commands;
    CommittedFits(writer);
    var replay, state, results := ReplayJournal(h, commands);
    if state == null {
      assert false; // a journal that loads replays
    }
    ResultsAreOwn(h, commands, state.Resting(), results);
    var error, rebuilt := ReconstructAdmissionIndex(h, commands, results);
    if rebuilt == null {
      writer := null;
      outcome := AdmissionFailed(error.value);
      return;
    }
    book, index, batches := state, rebuilt, results;
    MakeQuiescent(h, commands, state.Resting(), rebuilt.records, results);
    outcome := Recovered;
  }

  lemma SameRunAsItself(bytes: seq<byte>)
    ensures !Parse(bytes).Corruption? ==> SameRun(bytes, bytes)
  {
    hide Parse;
  }

  lemma CommittedFits(writer: Writer)
    requires writer.Valid()
    ensures Fits(writer.header, writer.committed)
  {
    hide Fits;
  }

  lemma ResultsAreOwn(h: Header, commands: seq<Command>, resting: Book, results: seq<Batch>)
    requires HasReplayed(h, commands, resting, results)
    ensures OwnResults(h, commands, results)
  {
    hide Run, RunSucceeds;
  }

  lemma MakeQuiescent(h: Header, committed: seq<Command>, resting: Book, records: Records, batches: seq<Batch>)
    requires KnowsInstruments(h) && Fits(h, committed) && HasReplayed(h, committed, resting, batches)
    requires |batches| == |committed| && Recorded(records, MessagesFrom(committed), |committed|, |committed|, batches)
    ensures Quiescent(h, committed, resting, records, batches)
  {
    hide Fits, HasReplayed, Recorded, KnowsInstruments;
  }
}
