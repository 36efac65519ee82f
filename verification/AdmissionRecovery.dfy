/** Rebuilding the admission index of a run from its journal and the replayed results. */
module AdmissionRecovery {
  import opened LittleEndian
  import opened Domain
  import opened PriceTime
  import opened PriceTimeTheorems
  import opened JournalFrame
  import opened CommandCodec
  import opened HeaderCodec
  import opened JournalFile
  import opened Admission
  import opened RecordKeeping
  import opened Replay

  datatype AdmissionRecoveryError =
    | InvalidRunId
    | CountMismatch
    | CountCapacityExceeded
    | CapacityUnrepresentable
    | RecoveredSequenceMismatch
    | RecoveredContextMismatch
    | InvalidNormalizedCommand
    | ResultCorrelationMismatch
    | ResultEventIdentityMismatch
    | DuplicateCommandKey

  /** Why a replayed result does not belong to the command it is paired with, if it does not. */
  method ValidateResult(key: AdmissionKey, batch: Batch, run: u64, expected: nat)
    returns (error: Option<AdmissionRecoveryError>)
    ensures error.None? <==>
            && batch.correlation.clientId == key.clientId && batch.correlation.clientCommandId == key.clientCommandId
            && batch.correlation.sequence == expected && batch.correlation.run == run
            && 1 <= |batch.events| <= U32_LIMIT
            && forall k | 0 <= k < |batch.events| :: batch.events[k].eventId.index == k
    ensures error != Some(DuplicateCommandKey)
  {
    var correlation := batch.correlation;
    if correlation.clientId != key.clientId || correlation.clientCommandId != key.clientCommandId ||
       correlation.sequence != expected || correlation.run != run
    {
      return Some(ResultCorrelationMismatch);
    }
    if batch.events == [] {
      return Some(ResultEventIdentityMismatch);
    }
    var eventIndex := 0;
    while eventIndex < |batch.events|
      invariant 0 <= eventIndex <= |batch.events| && eventIndex <= U32_LIMIT
      invariant forall k | 0 <= k < eventIndex :: batch.events[k].eventId.index == k
    {
      if eventIndex >= U32_LIMIT || batch.events[eventIndex].eventId.index != eventIndex {
        return Some(ResultEventIdentityMismatch);
      }
      eventIndex := eventIndex + 1;
    }
    error := None;
  }

  function RecoveredContextError(h: Header, c: Command, expected: nat): Option<AdmissionRecoveryError> {
    if c.sequence != expected then Some(RecoveredSequenceMismatch)
    else if c.run != h.run || c.rules != h.rules || !HasConfiguration(h, c.instrumentId, c.configuration)
    then Some(RecoveredContextMismatch)
    else None
  }

  /** The results are those of replaying the commands. */
  ghost predicate OwnResults(h: Header, commands: seq<Command>, results: seq<Batch>) {
    RunSucceeds(h.run, MessagesFrom(commands)) && Run(h.run, MessagesFrom(commands)).batches == results
  }

  /** Result `k` is what the command at `k` produced in this run, with one to the limit of events in index order. */
  lemma ResultAt(h: Header, commands: seq<Command>, results: seq<Batch>, k: nat)
    requires OwnResults(h, commands, results) && k < |commands|
    requires KnowsInstruments(h) && Fits(h, commands)
    ensures |results| == |commands|
    ensures var c, batch := commands[k], results[k];
            && batch.correlation == Correlation(c.clientId, c.commandId, k + 1, h.run)
            && 1 <= |batch.events| <= MAX_EVENTS_PER_COMMAND
            && forall i | 0 <= i < |batch.events| :: batch.events[i].eventId == EventId(k + 1, i, h.run)
  {
    hide *;
    var ms := MessagesFrom(commands);
    ReplayedRun(h, commands, results);
    RunPrefix(h.run, ms, k + 1);
    PrefixSucceeds(h, commands, k);
    var before, m := MessagesFrom(commands[..k]), MessageFrom(commands[k]);
    assert ms[..k + 1] == before + [m] by {
      MessagesSnoc(commands[..k], commands[k]);
      MessagesPrefix(commands, k + 1);
      assert commands[..k + 1] == commands[..k] + [commands[k]];
    }
    LastSucceeded(h.run, before, m);
    RunSnoc(h.run, before, m);
    var b := Run(h.run, before).book;
    assert results[..k + 1][k] == results[k];
    RunPrefix(h.run, before, |before|);
    assert before[..|before|] == before;
    BatchShape(h.run, b, m);
    CorrelationAt(h, commands, k);
    EventIds(Apply(h.run, b, m).batch);
  }

  lemma EventIds(batch: Batch)
    requires EventIdsFollow(batch)
    ensures forall k | 0 <= k < |batch.events| ::
              batch.events[k].eventId == EventId(batch.correlation.sequence, k, batch.correlation.run)
  {
  }

  lemma ReplayedRun(h: Header, commands: seq<Command>, results: seq<Batch>)
    requires OwnResults(h, commands, results)
    ensures RunSucceeds(h.run, MessagesFrom(commands)) && Run(h.run, MessagesFrom(commands)).batches == results
    ensures |MessagesFrom(commands)| == |commands|
  {
    hide Run, RunSucceeds;
  }

  lemma MessagesPrefix(commands: seq<Command>, k: nat)
    requires k <= |commands|
    ensures |MessagesFrom(commands)| == |commands| && MessagesFrom(commands)[..k] == MessagesFrom(commands[..k])
  {
  }

  lemma CorrelationAt(h: Header, commands: seq<Command>, k: nat)
    requires Fits(h, commands) && k < |commands|
    ensures var c, m := commands[k], MessageFrom(commands[k]);
            && m.clientCommandId == Some(c.commandId) && |MessagesFrom(commands[..k])| == k
            && CorrelationOf(h.run, m) == Correlation(c.clientId, c.commandId, k + 1, h.run)
            && (!IsNewOrder(m) || m.quantity > 0)
  {
    hide Journal;
    assert InContext(h, commands[k], k + 1);
  }

  lemma CommandIdentity(h: Header, commands: seq<Command>, k: nat)
    requires Fits(h, commands) && k < |commands|
    ensures Identified(MessageFrom(commands[k]))
    ensures RecoveredContextError(h, commands[k], k + 1).None?
  {
    hide Journal, HasConfiguration;
    assert InContext(h, commands[k], k + 1);
  }

  /** A journaled command and its result become one completed record. */
  lemma RecordReplayed(records: Records, before: seq<Message>, results: seq<Batch>, m: Message, batch: Batch)
    requires Recorded(records, before, |before|, |before|, results) && |results| == |before|
    requires Identified(m) && KeyOf(m).value !in records && |before| + 1 < U64_LIMIT
    ensures var record := Record(BusinessOf(m).value, Completed, |before| + 1, Some(batch));
            Recorded(records[KeyOf(m).value := record], before + [m], |before| + 1, |before| + 1, results + [batch])
  {
    hide *;
    IdentifiedHas(m);
    var n, key, all := |before|, KeyOf(m).value, before + [m];
    RecordSubmission(records, before, n, n, results, m);
    var reserved := records[key := Fresh(m)];
    RecordSequenced(reserved, all, n, n, results);
    assert all[n] == m;
    var sequenced := reserved[key := reserved[key].(state := Sequenced, sequence := n + 1)];
    RecordedMoreBatches(sequenced, all, n + 1, n, results, batch);
    RecordCompleted(sequenced, all, n + 1, n, results + [batch]);
    var completed := sequenced[key := sequenced[key].(state := Completed, result := Some(batch))];
    FreshIs(m);
    assert completed == records[key := Record(BusinessOf(m).value, Completed, n + 1, Some(batch))];
  }

  lemma FreshIs(m: Message)
    requires Identified(m)
    ensures Fresh(m) == Record(BusinessOf(m).value, Reserved, 0, None)
  {
  }

  /** One turn of the reconstruction loop. */
  method ReconstructOne(h: Header, ghost commands: seq<Command>, ghost results: seq<Batch>, k: nat, c: Command,
                        batch: Batch, records: Records)
    returns (error: Option<AdmissionRecoveryError>, after: Records)
    requires k < |commands| == |results| && c == commands[k] && batch == results[k] && k + 1 < U64_LIMIT
    requires Recorded(records, MessagesFrom(commands[..k]), k, k, results[..k])
    ensures error.None? ==> Recorded(after, MessagesFrom(commands[..k + 1]), k + 1, k + 1, results[..k + 1])
    ensures KnowsInstruments(h) && Fits(h, commands) && OwnResults(h, commands, results) ==>
              error.None? || error == Some(DuplicateCommandKey)
    ensures error == Some(DuplicateCommandKey) ==> !DistinctKeys(MessagesFrom(commands))
  {
    hide *;
    after := records;
    if KnowsInstruments(h) && Fits(h, commands) && OwnResults(h, commands, results) {
      CommandIdentity(h, commands, k);
      ResultAt(h, commands, results, k);
      KeyFromCommand(c);
      IdentifiedHas(MessageFrom(c));
      assert MAX_EVENTS_PER_COMMAND <= U32_LIMIT by { EventLimit(); }
    }
    var contextError := RecoveredContextError(h, c, k + 1);
    if contextError.Some? {
      NotDuplicate(h, c, k + 1);
      return contextError, after;
    }
    var m := MessageFrom(c);
    if !Identified(m) {
      return Some(InvalidNormalizedCommand), after;
    }
    IdentifiedHas(m);
    var key := KeyOf(m).value;
    var resultError := ValidateResult(key, batch, h.run, k + 1);
    if resultError.Some? {
      return resultError, after;
    }
    if key in records {
      DuplicateFound(records, commands, results, k);
      return Some(DuplicateCommandKey), after;
    }
    MessagesPrefix(commands, k);
    MessagesSnoc(commands[..k], c);
    assert commands[..k + 1] == commands[..k] + [c];
    assert results[..k + 1] == results[..k] + [batch];
    assert |MessagesFrom(commands[..k])| == k by { MessagesPrefix(commands[..k], k); }
    RecordReplayed(records, MessagesFrom(commands[..k]), results[..k], m, batch);
    after := records[key := Record(BusinessOf(m).value, Completed, k + 1, Some(batch))];
    error := None;
  }

  lemma EventLimit()
    ensures MAX_EVENTS_PER_COMMAND <= U32_LIMIT
  {
  }

  lemma IdentifiedHas(m: Message)
    ensures Identified(m) ==> KeyOf(m).Some? && BusinessOf(m).Some?
  {
  }

  lemma KeyFromCommand(c: Command)
    ensures KeyOf(MessageFrom(c)) ==
            if c.clientId == 0 then None else Some(AdmissionKey(c.clientId, c.commandId))
  {
  }

  lemma NotDuplicate(h: Header, c: Command, expected: nat)
    ensures RecoveredContextError(h, c, expected) != Some(DuplicateCommandKey)
  {
  }

  lemma DuplicateFound(records: Records, commands: seq<Command>, results: seq<Batch>, k: nat)
    requires k < |commands| == |results| && Recorded(records, MessagesFrom(commands[..k]), k, k, results[..k])
    requires KeyOf(MessageFrom(commands[k])).Some? && KeyOf(MessageFrom(commands[k])).value in records
    ensures !DistinctKeys(MessagesFrom(commands))
  {
    hide KeyOf, BusinessOf, MessageFrom;
    var ms := MessagesFrom(commands);
    MessagesPrefix(commands, k);
    var j :| 0 <= j < k && KeyOf(ms[..k][j]) == KeyOf(MessageFrom(commands[k]));
    assert ms[..k][j] == ms[j] && ms[k] == MessageFrom(commands[k]);
  }

  /**
   * One completed record per journaled command, with its own result. A journal that loads, with the results of its own
   * replay, can only be refused for two commands of one client identity.
   */
  method ReconstructAdmissionIndex(h: Header, commands: seq<Command>, results: seq<Batch>)
    returns (error: Option<AdmissionRecoveryError>, index: AdmissionIndex?)
    ensures error.None? <==> index != null
    ensures index != null ==>
              && fresh(index) && index.capacity == h.maxCommands && index.run == h.run && !index.admissionOpen
              && |results| == |commands|
              && Recorded(index.records, MessagesFrom(commands), |commands|, |commands|, results)
    ensures KnowsInstruments(h) && Fits(h, commands) && OwnResults(h, commands, results) ==>
              (error.None? <==> DistinctKeys(MessagesFrom(commands)))
  {
    hide *;
    index := null;
    if KnowsInstruments(h) && Fits(h, commands) && OwnResults(h, commands, results) {
      AcceptedShape(h, commands, results);
    }
    if h.run == 0 {
      return Some(InvalidRunId), null;
    }
    if |commands| != |results| {
      return Some(CountMismatch), null;
    }
    if |commands| > h.maxCommands {
      return Some(CountCapacityExceeded), null;
    }
    if h.maxCommands == 0 {
      return Some(CapacityUnrepresentable), null;
    }
    var records: Records := map[];
    var k := 0;
    NoMessages(commands, results);
    while k < |commands|
      invariant 0 <= k <= |commands|
      invariant Recorded(records, MessagesFrom(commands[..k]), k, k, results[..k])
    {
      RecordedKeysAreDistinct(records, MessagesFrom(commands[..k]), k, k, results[..k]);
      MessagesPrefix(commands, k);
      error, records := ReconstructOne(h, commands, results, k, commands[k], results[k], records);
      if error.Some? {
        return error, null;
      }
      k := k + 1;
    }
    assert commands[..k] == commands && results[..k] == results;
    RecordedKeysAreDistinct(records, MessagesFrom(commands), k, k, results);
    index := new AdmissionIndex(h.maxCommands, h.run, records);
    error := None;
  }

  lemma NoMessages(commands: seq<Command>, results: seq<Batch>)
    ensures Recorded(map[], MessagesFrom(commands[..0]), 0, 0, results[..0])
  {
    NothingRecorded();
    assert MessagesFrom(commands[..0]) == [];
  }

  lemma AcceptedShape(h: Header, commands: seq<Command>, results: seq<Batch>)
    requires Fits(h, commands) && OwnResults(h, commands, results)
    ensures h.run > 0 && h.maxCommands > 0 && |commands| <= h.maxCommands && |results| == |commands|
  {
    hide Journal;
    RunPrefix(h.run, MessagesFrom(commands), 0);
  }
}
