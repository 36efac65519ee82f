/** The admission index: one record per client command identity, from reservation to the stored result. */
module Admission {
  import opened LittleEndian
  import opened Domain

  datatype AdmissionKey = AdmissionKey(clientId: u64, clientCommandId: ClientCommandId)

  datatype BusinessCommand =
    | NormalizedNewOrder(instrumentId: u64, configurationVersion: u64, side: Side, price: u64, quantity: u64,
                         tif: TimeInForce)
    | NormalizedCancel(instrumentId: u64, targetOrderId: u64)

  datatype RecordState = Reserved | Sequenced | Completed

  datatype Record = Record(command: BusinessCommand, state: RecordState, sequence: u64, result: Option<Batch>)

  type Records = map<AdmissionKey, Record>

  datatype AdmissionRejection = RunCapacityReached | ExchangeRunUnavailable | GatewayBusy | NoReason

  datatype AdmissionDecision =
    | InvalidArgument
    | FirstSubmission
    | IdenticalInFlight
    | IdenticalCompleted(result: Batch)
    | ConflictingReuse
    | AdmissionUnavailable(reason: AdmissionRejection)

  /** The exact client identity a message must carry. */
  function KeyOf(m: Message): Option<AdmissionKey> {
    if m.clientId == 0 || m.clientCommandId.None? then None
    else Some(AdmissionKey(m.clientId, m.clientCommandId.value))
  }

  /** What makes two submissions the same command. */
  function BusinessOf(m: Message): Option<BusinessCommand> {
    if m.instrumentId == 0 then None
    else if IsNewOrder(m) then
      if m.configurationVersion == 0 || m.price == 0 || m.quantity == 0 then None
      else Some(NormalizedNewOrder(m.instrumentId, m.configurationVersion, if m.kind.BUY? then Buy else Sell,
                                   m.price, m.quantity, m.tif))
    else if m.kind.CANCEL? && m.targetOrderId.Some? && m.targetOrderId.value != 0 then
      Some(NormalizedCancel(m.instrumentId, m.targetOrderId.value))
    else None
  }

  predicate Identified(m: Message) {
    KeyOf(m).Some? && BusinessOf(m).Some?
  }

  /** Which messages carry everything admission needs, field by field. */
  lemma IdentifiedIff(m: Message)
    ensures Identified(m) <==>
            && m.clientId != 0 && m.clientCommandId.Some? && m.instrumentId != 0
            && (|| ((m.kind.BUY? || m.kind.SELL?) && m.configurationVersion != 0 && m.price != 0 && m.quantity != 0)
                || (m.kind.CANCEL? && m.targetOrderId.Some? && m.targetOrderId.value != 0))
  {
  }

  /** The same client calls both by the same name. */
  predicate SharesIdentity(m: Message, other: Message) {
    m.clientId == other.clientId && m.clientCommandId == other.clientCommandId
  }

  /**
   * The two messages ask for the same thing. Sequence numbers, order ids and, for a cancel, everything that only an
   * order has do not matter.
   */
  predicate SameCommand(m: Message, other: Message) {
    && m.kind == other.kind && m.instrumentId == other.instrumentId
    && (if m.kind.CANCEL? then m.targetOrderId == other.targetOrderId
        else && m.configurationVersion == other.configurationVersion && m.price == other.price
             && m.quantity == other.quantity && m.tif == other.tif)
  }

  lemma KeyAndBusinessDecide(m: Message, other: Message)
    requires Identified(m) && Identified(other)
    ensures KeyOf(m) == KeyOf(other) <==> SharesIdentity(m, other)
    ensures BusinessOf(m) == BusinessOf(other) <==> SameCommand(m, other)
  {
  }

  function Fresh(m: Message): Record
    requires Identified(m)
  {
    Record(BusinessOf(m).value, Reserved, 0, None)
  }

  datatype MarkSequencedStatus =
    | MarkedSequenced
    | Idempotent
    | MarkInvalidArgument
    | InvalidSequence
    | UnknownReservation
    | CommandMismatch
    | WrongState
    | SequenceMismatch

  datatype CompletionStatus =
    | MarkedCompleted
    | InvalidBatch
    | UnknownCompletion
    | WrongCompletionState
    | CorrelationMismatch

  datatype CompletedLookup = LookupInvalidArgument | NoResult | Found(result: Batch)

  /** Every stored result belongs to a completed record of this run. */
  ghost predicate WellKept(records: Records) {
    forall key | key in records :: records[key].state.Completed? <==> records[key].result.Some?
  }

  class AdmissionIndex {
    const capacity: nat
    const run: u64
    var records: Records
    var admissionOpen: bool

    constructor (capacity: nat, run: u64, records: Records)
      ensures this.capacity == capacity && this.run == run && this.records == records && !admissionOpen
    {
      this.capacity, this.run, this.records := capacity, run, records;
      admissionOpen := false;
    }

    /**
     * Reservation and staging are one step: a first submission is recorded and queued, anything else changes nothing.
     * An identical command is answered by its own record, whatever the gate, the capacity or the queue say.
     */
    method ReserveAndStage(m: Message, staging: seq<Message>, stagingCapacity: nat, capacityAvailable: bool)
      returns (decision: AdmissionDecision, staged: seq<Message>)
      requires WellKept(records)
      modifies this`records
      ensures WellKept(records)
      ensures decision.InvalidArgument? <==> !Identified(m)
      ensures decision.FirstSubmission? ==>
                && Identified(m) && KeyOf(m).value !in old(records)
                && capacityAvailable && admissionOpen && |old(records)| < capacity && |staging| < stagingCapacity
                && records == old(records)[KeyOf(m).value := Fresh(m)] && staged == staging + [m]
      ensures !decision.FirstSubmission? ==> records == old(records) && staged == staging
      ensures Identified(m) && KeyOf(m).value in old(records) ==>
                var record := old(records)[KeyOf(m).value];
                decision ==
                if record.command != BusinessOf(m).value then ConflictingReuse
                else if record.state.Completed? then IdenticalCompleted(record.result.value)
                else IdenticalInFlight
      ensures Identified(m) && KeyOf(m).value !in old(records) ==>
                decision ==
                if !capacityAvailable then AdmissionUnavailable(RunCapacityReached)
                else if !admissionOpen then AdmissionUnavailable(ExchangeRunUnavailable)
                else if |old(records)| >= capacity then AdmissionUnavailable(NoReason)
                else if |staging| >= stagingCapacity then AdmissionUnavailable(GatewayBusy)
                else FirstSubmission
    {
      staged := staging;
      var key, command := KeyOf(m), BusinessOf(m);
      if key.None? || command.None? {
        return InvalidArgument, staged;
      }
      if key.value in records {
        var existing := records[key.value];
        if existing.command != command.value {
          return ConflictingReuse, staged;
        }
        if !existing.state.Completed? {
          return IdenticalInFlight, staged;
        }
        return IdenticalCompleted(existing.result.value), staged;
      }
      if !capacityAvailable {
        return AdmissionUnavailable(RunCapacityReached), staged;
      }
      if !admissionOpen || |records| >= capacity {
        return AdmissionUnavailable(if admissionOpen then NoReason else ExchangeRunUnavailable), staged;
      }
      ghost var before := records;
      records := records[key.value := Record(command.value, Reserved, 0, None)];
      if |staging| >= stagingCapacity {
        records := records - {key.value};
        assert records == before;
        return AdmissionUnavailable(GatewayBusy), staged;
      }
      staged := staging + [m];
      decision := FirstSubmission;
    }

    method MarkSequenced(m: Message) returns (status: MarkSequencedStatus)
      modifies this`records
      ensures status.MarkedSequenced? <==>
                && m.sequence != 0 && Identified(m) && KeyOf(m).value in old(records)
                && old(records)[KeyOf(m).value].command == BusinessOf(m).value
                && old(records)[KeyOf(m).value].state.Reserved?
      ensures records == if status.MarkedSequenced?
                         then old(records)[KeyOf(m).value :=
                                old(records)[KeyOf(m).value].(state := Sequenced, sequence := m.sequence)]
                         else old(records)
    {
      if m.sequence == 0 {
        return InvalidSequence;
      }
      if !Identified(m) {
        return MarkInvalidArgument;
      }
      var key := KeyOf(m).value;
      if key !in records {
        return UnknownReservation;
      }
      var existing := records[key];
      if existing.command != BusinessOf(m).value {
        return CommandMismatch;
      }
      if existing.state.Reserved? {
        records := records[key := existing.(state := Sequenced, sequence := m.sequence)];
        return MarkedSequenced;
      }
      if existing.state.Sequenced? {
        return if existing.sequence != m.sequence then SequenceMismatch else Idempotent;
      }
      status := WrongState;
    }

    method Complete(batch: Batch) returns (status: CompletionStatus)
      modifies this`records
      ensures var key := AdmissionKey(batch.correlation.clientId, batch.correlation.clientCommandId);
              && (status.MarkedCompleted? <==>
                  && batch.correlation.clientId != 0 && batch.correlation.sequence != 0 && batch.correlation.run == run
                  && key in old(records) && old(records)[key].state.Sequenced?
                  && old(records)[key].sequence == batch.correlation.sequence)
              && records == if status.MarkedCompleted?
                            then old(records)[key := old(records)[key].(state := Completed, result := Some(batch))]
                            else old(records)
    {
      var correlation := batch.correlation;
      if correlation.clientId == 0 || correlation.sequence == 0 {
        return InvalidBatch;
      }
      if correlation.run != run {
        return CorrelationMismatch;
      }
      var key := AdmissionKey(correlation.clientId, correlation.clientCommandId);
      if key !in records {
        return UnknownCompletion;
      }
      var existing := records[key];
      if !existing.state.Sequenced? {
        return WrongCompletionState;
      }
      if existing.sequence != correlation.sequence {
        return CorrelationMismatch;
      }
      records := records[key := existing.(state := Completed, result := Some(batch))];
      status := MarkedCompleted;
    }

    /** The stored result of an identical completed command, and nothing for anything else. */
    method CompletedResult(m: Message) returns (lookup: CompletedLookup)
      requires WellKept(records)
      ensures lookup.LookupInvalidArgument? <==> !Identified(m)
      ensures lookup.Found? <==>
                && Identified(m) && KeyOf(m).value in records && records[KeyOf(m).value].state.Completed?
                && records[KeyOf(m).value].command == BusinessOf(m).value
      ensures lookup.Found? ==> records[KeyOf(m).value].result == Some(lookup.result)
    {
      if !Identified(m) {
        return LookupInvalidArgument;
      }
      var key := KeyOf(m).value;
      if key !in records || !records[key].state.Completed? || records[key].command != BusinessOf(m).value {
        return NoResult;
      }
      lookup := Found(records[key].result.value);
    }
  }
}
