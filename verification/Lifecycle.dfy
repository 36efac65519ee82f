/**
 * The run controller: which run is owned, whether it accepts commands, and how the durable catalog follows. The catalog
 * is one durable cell whose replacement checks the generation and ends committed, refused or uncertain.
 */
module Lifecycle {
  import opened LittleEndian
  import opened Domain
  import opened PriceTime
  import opened PriceTimeTheorems
  import opened BookIndex
  import opened MatchingEngine
  import opened JournalFrame
  import opened CommandCodec
  import opened HeaderCodec
  import opened JournalFile
  import opened StorageFile
  import opened JournalWriter
  import opened JournalRecovery
  import opened Admission
  import opened RecordKeeping
  import opened Replay
  import opened AdmissionRecovery
  import opened RecoveredRun
  import opened Stages
  import opened Delivery
  import opened Pipeline

  // ----- The catalog

  datatype Disposition = NoDisposition | OPEN | PAUSED | CAPACITY_REACHED | FAIL_STOPPED | RECOVERY_FAILED

  datatype Snapshot = Snapshot(generation: u64, active: Option<u64>, disposition: Disposition, retained: Option<u64>)

  datatype CatalogFate = Succeeds | Refuses | Uncertain(applied: bool)

  datatype Loading = Loaded(snapshot: Snapshot) | Missing | LoadFailed

  class Catalog {
    var stored: Option<Snapshot>
    var fates: seq<CatalogFate>

    constructor (stored: Option<Snapshot>, fates: seq<CatalogFate>)
      ensures this.stored == stored && this.fates == fates
    {
      this.stored, this.fates := stored, fates;
    }

    method NextFate() returns (fate: CatalogFate)
      modifies this`fates
      ensures old(fates) == [] ==> fates == [] && fate.Succeeds?
    {
      fate := Succeeds;
      if fates != [] {
        fate, fates := fates[0], fates[1..];
      }
    }

    method Load() returns (loading: Loading)
      modifies this`fates
      ensures loading.Loaded? ==> stored == Some(loading.snapshot)
      ensures loading.Missing? ==> stored.None?
      ensures old(fates) == [] ==> fates == [] && !loading.LoadFailed?
    {
      var fate := NextFate();
      loading := if !fate.Succeeds? then LoadFailed else if stored.None? then Missing else Loaded(stored.value);
    }

    /** A committed replacement is in the cell; a refused one is not; an uncertain one may be. */
    method Replace(next: Snapshot) returns (committed: bool)
      modifies this
      ensures committed ==> stored == Some(next)
      ensures stored == old(stored) || stored == Some(next)
      ensures committed ==> next.generation == if old(stored).None? then 1 else old(stored).value.generation + 1
      ensures old(fates) == [] ==>
                fates == [] &&
                (committed <==> next.generation == if old(stored).None? then 1 else old(stored).value.generation + 1)
    {
      if stored.None? {
        if next.generation != 1 {
          return false;
        }
      } else if next.generation != stored.value.generation + 1 {
        return false;
      }
      var fate := NextFate();
      match fate {
        case Succeeds =>
          stored := Some(next);
          committed := true;
        case Refuses =>
          committed := false;
        case Uncertain(applied) =>
          if applied {
            stored := Some(next);
          }
          committed := false;
      }
    }
  }

  /** The catalog entry selects the run with this disposition and can still be replaced `steps` times. */
  predicate Selects(stored: Option<Snapshot>, run: u64, disposition: Disposition, steps: nat) {
    && stored.Some? && stored.value.active == Some(run) && stored.value.disposition == disposition
    && stored.value.generation + steps < U64_LIMIT
  }

  /** The entry after one more generation, with another disposition and nothing else changed. */
  function Next(snapshot: Snapshot, disposition: Disposition): (next: Snapshot)
    requires snapshot.generation < U64_LIMIT - 1
    ensures next.generation == snapshot.generation + 1 && next.disposition == disposition
    ensures next.active == snapshot.active && next.retained == snapshot.retained
  {
    snapshot.(generation := snapshot.generation + 1, disposition := disposition)
  }

  predicate IsOpenFor(stored: Option<Snapshot>, run: u64) {
    stored.Some? && stored.value.active == Some(run) && stored.value.disposition == OPEN
  }

  // ----- The run a controller owns

  class RunState {
    const writer: Writer
    const index: AdmissionIndex
    const book: MatchingState
    ghost const batches: seq<Batch>

    constructor (writer: Writer, index: AdmissionIndex, book: MatchingState, ghost batches: seq<Batch>)
      ensures this.writer == writer && this.index == index && this.book == book && this.batches == batches
    {
      this.writer, this.index, this.book, this.batches := writer, index, book, batches;
    }

    ghost predicate AtRest()
      reads writer, writer.file, index, book, book.nodes
    {
      && writer.Valid() && writer.usable && book.Valid() && book.run == writer.header.run
      && index.run == writer.header.run && index.capacity == writer.header.maxCommands
      && Quiescent(writer.header, writer.committed, book.Resting(), index.records, batches)
    }
  }

  datatype ControllerState = UnavailableRun | Ready | Paused | CapacityReachedRun | StoppedRun | FailStopped | RecoveryFailed

  datatype InstallOutcome = Installed | NotInstallable | InvalidCapacity

  datatype ResumeOutcome =
    | ResumedReady | NotPaused | ResumeCatalogLoadFailed | ResumeRunMismatch | CatalogNotPaused | ResumeCapacityReached
    | ResumeGenerationExhausted | ResumeReplaceFailed

  datatype PauseOutcome =
    | PausedNow | NotReady | PathNotInstalled | ProcessingFailed | ResultHandoffBackpressure | PauseCatalogLoadFailed
    | PauseRunMismatch | PauseCatalogNotOpen | PauseGenerationExhausted | PauseReplaceFailed

  datatype StopOutcome =
    | Stopped | NotStoppable | PauseFailed | StopHandoffBackpressure | StopCatalogLoadFailed | StopRunMismatch
    | StopDispositionMismatch | StopGenerationExhausted | ConfirmationRequired | ConfirmationMismatch | StopReplaceFailed

  datatype StartupOutcome =
    | StartedReady | StartedPaused | RunAlreadyOwned | ActiveRunExists | StartFailed | StartupCatalogLoadFailed
    | NoActiveRun | ExplicitOperationRequired | StartupGenerationExhausted | StartupRecoveryFailed
    | StartupReplaceFailed

  datatype RecoverOutcome =
    | RecoveredPaused | NotRecoverable | RecoverCatalogLoadFailed | RecoverNoActiveRun | RecoverRunMismatch
    | CatalogNotFailed | RecoverGenerationExhausted | RecoverHandoffBackpressure | RecoverFailedAgain
    | RecoverReplaceFailed

  const MAX_GENERATION: u64 := U64_LIMIT - 1

  class Controller {
    const catalog: Catalog
    var state: ControllerState
    var run: RunState?
    var path: CommandPath?

    ghost function Owned(): (owned: set<object>)
      reads this`run, this`path, if run == null then {} else {run.book}
      ensures this !in owned && catalog !in owned
    {
      (if run == null then {}
       else {run.writer as object, run.writer.file, run.index, run.book} + (set node | node in run.book.nodes)) +
      (if path == null then {} else {path})
    }

    /** The path works on the run the controller owns; without a path the run is at rest. */
    ghost predicate Wired()
      reads this`run, this`path, Owned()
    {
      && (path != null ==>
          && run != null && path.writer == run.writer && path.index == run.index && path.book == run.book
          && path.Valid() && path.Accounted())
      && (run != null && path == null ==> run.AtRest())
    }

    /** Open admission means a ready run whose open catalog entry is committed. */
    ghost predicate GateIsSafe()
      reads this, catalog, Owned()
    {
      run != null && run.index.admissionOpen ==>
        && state.Ready? && IsOpenFor(catalog.stored, run.writer.header.run)
        && (path != null ==> !path.capacityTransitionPending)
    }

    /** A paused run and one that reached its capacity have nothing in flight. */
    ghost predicate StateIsHonest()
      reads this, Owned()
    {
      && (state.Ready? || state.Paused? || state.CapacityReachedRun? ==>
          run != null && (path != null ==> path.journalAppendFailure.None?))
      && (state.Paused? || state.CapacityReachedRun? ==> path != null ==> path.ProcessingDrained())
      && (state.Paused? ==> path != null ==> !path.capacityTransitionPending)
      && (state.FailStopped? ==> run != null && path != null)
    }

    ghost predicate Valid()
      reads this, catalog, Owned()
    {
      Wired() && GateIsSafe() && StateIsHonest()
    }

    constructor (catalog: Catalog)
      ensures Valid() && this.catalog == catalog && run == null && path == null && state.UnavailableRun?
    {
      this.catalog := catalog;
      state, run, path := UnavailableRun, null, null;
    }

    method CloseAdmission()
      requires Wired()
      modifies if run == null then {} else {run.index}`admissionOpen
      ensures Wired() && (run != null ==> !run.index.admissionOpen)
      ensures run != null ==> run.index.records == old(run.index.records)
    {
      hide Quiescent, MatchingState.Valid, Writer.Valid, CommandPath.Sequencing, CommandPath.Matching,
           CommandPath.Admitted, CommandPath.Delivering, CommandPath.AccountedSince;
      if run != null {
        run.index.admissionOpen := false;
      }
    }

    /** Queue capacities are positive, command queues fit their index type, delivery queues hold one worst-case result. */
    method InstallCommandProcessing(submissionCapacity: nat, matchingCapacity: nat, resultCapacity: nat,
                                    privateEventCapacity: nat, publicRecordCapacity: nat)
      returns (outcome: InstallOutcome)
      requires Valid()
      modifies this`path
      ensures Valid() && fresh(Owned() - old(Owned()))
      ensures outcome.Installed? <==>
                && old(path) == null && run != null && (state.Ready? || state.Paused?)
                && 0 < submissionCapacity < 65535 && 0 < matchingCapacity < 65535 && 0 < resultCapacity
                && 2 * MAX_EVENTS_PER_COMMAND <= privateEventCapacity && MAX_EVENTS_PER_COMMAND <= publicRecordCapacity
      ensures !outcome.Installed? ==> path == old(path)
      ensures outcome.Installed? ==> path != null && fresh(path)
    {
      hide Quiescent, MatchingState.Valid, Writer.Valid, CommandPath.Sequencing, CommandPath.Matching,
           CommandPath.Admitted, CommandPath.Delivering, CommandPath.AccountedSince;
      if path != null || run == null || (!state.Ready? && !state.Paused?) {
        return NotInstallable;
      }
      if submissionCapacity == 0 || submissionCapacity >= 65535 || matchingCapacity == 0 || matchingCapacity >= 65535 ||
         resultCapacity == 0 || privateEventCapacity < 2 * MAX_EVENTS_PER_COMMAND ||
         publicRecordCapacity < MAX_EVENTS_PER_COMMAND
      {
        return InvalidCapacity;
      }
      path := new CommandPath(run.writer, run.index, run.book, submissionCapacity, matchingCapacity, resultCapacity,
                              privateEventCapacity, publicRecordCapacity, run.batches);
      outcome := Installed;
    }

    method SubmitCommand(runId: u64, m: Message) returns (decision: AdmissionDecision)
      requires Valid()
      requires !IsNewOrder(m) ==> m.orderId == 0
      modifies Owned()
      ensures Valid()
      ensures decision.FirstSubmission? ==>
                && state.Ready? && run != null && path != null && runId == run.writer.header.run
                && old(run.index.admissionOpen) && path.accepted == old(path.accepted) + [m]
      ensures !decision.FirstSubmission? && path != null ==> path.accepted == old(path.accepted)
      ensures path == null || runId != run.writer.header.run ==> decision == AdmissionUnavailable(ExchangeRunUnavailable)
      ensures run != null && path != null && runId == run.writer.header.run && Identified(m) ==>
                && path.Answers(m, decision, old(path.accepted), path.completed, path.batches)
                && (old(path.IsNew(m)) ==>
                      decision ==
                      if state.CapacityReachedRun? || (state.Ready? && old(path.capacityTransitionPending))
                      then AdmissionUnavailable(RunCapacityReached)
                      else if !state.Ready? then AdmissionUnavailable(ExchangeRunUnavailable)
                      else old(path.FirstAnswer(path.HasRoomFor(m))))
    {
      hide CommandPath.Valid, CommandPath.Accounted, RunState.AtRest, CommandPath.ProcessingDrained, IsNewOrder;
      if path == null || runId != run.writer.header.run {
        return AdmissionUnavailable(ExchangeRunUnavailable);
      }
      if state.CapacityReachedRun? || (state.Ready? && path.capacityTransitionPending) {
        decision := path.SubmitClosed(m, false);
        return;
      }
      if !state.Ready? {
        decision := path.SubmitClosed(m, true);
        return;
      }
      decision := path.Submit(m);
    }

    /** Opens admission only after the open catalog entry is committed. */
    method ResumeRun() returns (outcome: ResumeOutcome)
      requires Valid()
      modifies this`state, catalog, if run == null then {} else {run.index}
      ensures Valid()
      ensures outcome.ResumedReady? ==>
                && old(state).Paused? && state.Ready? && run.index.admissionOpen
                && IsOpenFor(catalog.stored, run.writer.header.run)
                && Selects(old(catalog.stored), run.writer.header.run, PAUSED, 1)
                && catalog.stored == Some(Next(old(catalog.stored).value, OPEN))
                && run.writer.committedCommandCount < run.writer.header.maxCommands
                && run.writer.committedByteCount < run.writer.header.maxBytes
      ensures (&& run != null && old(state).Paused? && old(catalog.fates) == []
               && Selects(old(catalog.stored), run.writer.header.run, PAUSED, 1)
               && run.writer.committedCommandCount < run.writer.header.maxCommands
               && run.writer.committedByteCount < run.writer.header.maxBytes) ==> outcome.ResumedReady?
      ensures !outcome.ResumedReady? ==> state == old(state) && (run != null ==> run.index.admissionOpen == old(run.index.admissionOpen))
    {
      hide Quiescent, MatchingState.Valid, Writer.Valid, CommandPath.Sequencing, CommandPath.Matching,
           CommandPath.Admitted, CommandPath.Delivering, CommandPath.AccountedSince;
      if !state.Paused? {
        return NotPaused;
      }
      var loading := catalog.Load();
      if !loading.Loaded? {
        return ResumeCatalogLoadFailed;
      }
      var snapshot := loading.snapshot;
      var writer := run.writer;
      if snapshot.active != Some(writer.header.run) {
        return ResumeRunMismatch;
      }
      if snapshot.disposition != PAUSED {
        return CatalogNotPaused;
      }
      if writer.committedCommandCount >= writer.header.maxCommands || writer.committedByteCount >= writer.header.maxBytes {
        return ResumeCapacityReached;
      }
      if snapshot.generation == MAX_GENERATION {
        return ResumeGenerationExhausted;
      }
      var next := Next(snapshot, OPEN);
      var committed := catalog.Replace(next);
      if !committed {
        return ResumeReplaceFailed;
      }
      OpenAdmission();
      outcome := ResumedReady;
    }

    /** A failed append is published as a fail-stop if the catalog allows it. */
    method PublishFailStopped()
      requires run != null
      modifies this`state, catalog
      ensures state.FailStopped? || state.UnavailableRun?
      ensures state.FailStopped? ==>
                && Selects(old(catalog.stored), run.writer.header.run, OPEN, 1)
                && catalog.stored == Some(Next(old(catalog.stored).value, FAIL_STOPPED))
      ensures old(catalog.fates) == [] && Selects(old(catalog.stored), run.writer.header.run, OPEN, 1) ==> state.FailStopped?
    {
      state := UnavailableRun;
      var loading := catalog.Load();
      if !loading.Loaded? {
        return;
      }
      var snapshot := loading.snapshot;
      if snapshot.active != Some(run.writer.header.run) || snapshot.disposition != OPEN ||
         snapshot.generation == MAX_GENERATION
      {
        return;
      }
      var committed := catalog.Replace(Next(snapshot, FAIL_STOPPED));
      if committed {
        state := FailStopped;
      }
    }

    /** The run has reached its capacity and is drained: publish it, or become unavailable. */
    method ReachCapacity() returns (reached: bool)
      requires Valid() && path != null && state.Ready? && path.capacityTransitionPending && path.ProcessingDrained()
      modifies this`state, catalog
      ensures Valid() && (if reached then state.CapacityReachedRun? else state.UnavailableRun?)
      ensures run != null && reached ==>
                && Selects(old(catalog.stored), run.writer.header.run, OPEN, 1)
                && catalog.stored == Some(Next(old(catalog.stored).value, CAPACITY_REACHED))
      ensures run != null && old(catalog.fates) == [] && Selects(old(catalog.stored), run.writer.header.run, OPEN, 1) ==>
                reached
    {
      hide Wired, CommandPath.ProcessingDrained;
      assert this !in Owned() && catalog !in Owned();
      state := UnavailableRun;
      assert Wired();
      var loading := catalog.Load();
      if !loading.Loaded? {
        return false;
      }
      var snapshot := loading.snapshot;
      if snapshot.active != Some(run.writer.header.run) || snapshot.disposition != OPEN ||
         snapshot.generation == MAX_GENERATION
      {
        return false;
      }
      var committed := catalog.Replace(Next(snapshot, CAPACITY_REACHED));
      if !committed {
        return false;
      }
      state := CapacityReachedRun;
      reached := true;
    }

    /** The storage failed or a command has no journal form: nothing more is accepted, and the catalog is told. */
    method FailStop()
      requires run != null && path != null && Wired()
      modifies this`state, catalog, run.index`admissionOpen
      ensures run != null && !run.index.admissionOpen
      ensures (state.FailStopped? || state.UnavailableRun?) && Valid()
      ensures old(catalog.fates) == [] && Selects(old(catalog.stored), run.writer.header.run, OPEN, 1) ==> state.FailStopped?
    {
      hide Wired;
      assert this !in Owned() && catalog !in Owned();
      CloseAdmission();
      PublishFailStopped();
    }

    /**
     * One driving step. It returns false when there is nothing to do, when the run is not ready, after a failure, or
     * when delivery is blocked.
     */
    method AdvanceCommandProcessing() returns (progressed: bool)
      requires Valid()
      modifies this`state, catalog, Owned()
      ensures Valid() && run == old(run) && path == old(path) && fresh(Owned() - old(Owned()))
      ensures !old(state.Ready?) ==> state == old(state)
      ensures old(state.Ready?) ==>
                state.Ready? || state.FailStopped? || state.UnavailableRun? || state.CapacityReachedRun?
      ensures path != null ==>
                path.accepted == old(path.accepted) && path.capacityTransitionPending == old(path.capacityTransitionPending)
      ensures run != null && run.index.admissionOpen ==> old(run.index.admissionOpen)
      ensures state.Ready? && path != null ==>
                if progressed then path.Load() < old(path.Load())
                else (path.ProcessingDrained() && old(path.ProcessingDrained())) || path.DeliveryBlocked()
      ensures old(state.Ready?) && path != null && !path.capacityTransitionPending && !state.Ready? ==>
                path.journalAppendFailure.Some? && !progressed
      ensures state.Ready? ==> catalog.stored == old(catalog.stored) && catalog.fates == old(catalog.fates)
      ensures (&& old(state.Ready?) && run != null && path != null && !state.Ready? && old(catalog.fates) == []
               && Selects(old(catalog.stored), run.writer.header.run, OPEN, 1)) ==>
                if path.journalAppendFailure.Some? then state.FailStopped? else state.CapacityReachedRun?
    {
      hide CommandPath.Valid, CommandPath.Accounted, RunState.AtRest, CommandPath.ProcessingDrained,
           CommandPath.DeliveryBlocked, CommandPath.Load;
      if path == null || !state.Ready? {
        return false;
      }
      progressed := path.Cycle();
      if path.journalAppendFailure.Some? {
        FailStop();
        return false;
      }
      if !path.capacityTransitionPending || !path.ProcessingDrained() {
        return;
      }
      progressed := ReachCapacity();
    }

    /** Drives the path until nothing is in flight. The loop ends, and never with commands left and nothing to wait for. */
    method Drain() returns (failure: Option<PauseOutcome>)
      requires Valid() && state.Ready? && path != null && !path.capacityTransitionPending
      requires run != null && !run.index.admissionOpen
      modifies this`state, catalog, Owned()
      ensures Valid() && run == old(run) && path == old(path) && fresh(Owned() - old(Owned()))
      ensures path.accepted == old(path.accepted) && !path.capacityTransitionPending && !run.index.admissionOpen
      ensures failure.None? ==> state.Ready? && path.ProcessingDrained() && path.ResultHandoffsDrained()
      ensures failure.Some? ==> failure.value.ProcessingFailed? || failure.value.ResultHandoffBackpressure?
      ensures failure.Some? && failure.value.ResultHandoffBackpressure? ==> state.Ready? && !path.ResultHandoffsDrained()
      ensures failure.Some? && failure.value.ProcessingFailed? ==> path.journalAppendFailure.Some?
      ensures !state.Paused? && !state.StoppedRun?
      ensures failure.None? ==> catalog.stored == old(catalog.stored) && catalog.fates == old(catalog.fates)
    {
      hide Valid, CommandPath.Load;
      while true
        invariant Valid() && run == old(run) && path == old(path) && fresh(Owned() - old(Owned()))
        invariant state.Ready? && !path.capacityTransitionPending && !run.index.admissionOpen
        invariant path.accepted == old(path.accepted)
        invariant catalog.stored == old(catalog.stored) && catalog.fates == old(catalog.fates)
        decreases path.Load()
      {
        if path.ProcessingDrained() {
          return if path.ResultHandoffsDrained() then None else Some(ResultHandoffBackpressure);
        }
        var progressed := AdvanceCommandProcessing();
        if !state.Ready? {
          return Some(ProcessingFailed);
        }
        if !progressed {
          if path.dispatch.privateResults != [] || path.dispatch.publicTrades != [] || path.privateResults != [] ||
             path.publicTrades != []
          {
            return Some(ResultHandoffBackpressure);
          }
          assert false; // a cycle without progress found delivery blocked
        }
      }
    }

    /** The ordered barrier: close admission, drain, then publish the pause. */
    method PauseRun() returns (outcome: PauseOutcome)
      requires Valid()
      modifies this`state, catalog, Owned()
      ensures Valid() && run == old(run) && path == old(path) && fresh(Owned() - old(Owned()))
      ensures path != null ==> path.accepted == old(path.accepted)
      ensures outcome.PausedNow? ==>
                && old(state).Ready? && state.Paused? && path != null && run != null
                && path.ProcessingDrained() && path.ResultHandoffsDrained()
                && Selects(old(catalog.stored), run.writer.header.run, OPEN, 1)
                && catalog.stored == Some(Next(old(catalog.stored).value, PAUSED))
      ensures outcome.NotReady? || outcome.PathNotInstalled? ==> state == old(state)
      ensures outcome.ResultHandoffBackpressure? ==> path != null && !path.ResultHandoffsDrained()
      ensures outcome.ProcessingFailed? ==> path != null && path.journalAppendFailure.Some?
      ensures (&& run != null && old(state).Ready? && path != null && !old(path.capacityTransitionPending)
               && old(catalog.fates) == [] && Selects(old(catalog.stored), run.writer.header.run, OPEN, 1)) ==>
                outcome.PausedNow? || outcome.ProcessingFailed? || outcome.ResultHandoffBackpressure?
      ensures !outcome.PausedNow? && !outcome.NotReady? ==> !state.Paused?
      ensures state.StoppedRun? ==> old(state).StoppedRun?
    {
      hide CommandPath.Valid, CommandPath.Accounted, RunState.AtRest, CommandPath.ProcessingDrained,
           CommandPath.ResultHandoffsDrained;
      if !state.Ready? {
        return NotReady;
      }
      if path == null {
        return PathNotInstalled;
      }
      if path.capacityTransitionPending {
        return NotReady;
      }
      CloseAdmission();
      var failure := Drain();
      if failure.Some? {
        return failure.value;
      }
      outcome := PublishPaused(run.writer.header.run);
    }

    method PublishPaused(runId: u64) returns (outcome: PauseOutcome)
      requires Valid() && state.Ready? && run != null && !run.index.admissionOpen && runId == run.writer.header.run
      requires path != null && !path.capacityTransitionPending && path.ProcessingDrained()
      modifies this`state, catalog
      ensures if outcome.PausedNow? then state.Paused? else state.UnavailableRun?
      ensures !outcome.NotReady? && !outcome.PathNotInstalled?
      ensures !outcome.ResultHandoffBackpressure? && !outcome.ProcessingFailed?
      ensures outcome.PausedNow? ==>
                && Selects(old(catalog.stored), runId, OPEN, 1)
                && catalog.stored == Some(Next(old(catalog.stored).value, PAUSED))
      ensures old(catalog.fates) == [] && Selects(old(catalog.stored), runId, OPEN, 1) ==> outcome.PausedNow?
      ensures Valid()
    {
      hide Wired, CommandPath.ProcessingDrained;
      assert this !in Owned() && catalog !in Owned();
      state := UnavailableRun;
      assert Wired();
      var loading := catalog.Load();
      if !loading.Loaded? {
        return PauseCatalogLoadFailed;
      }
      var snapshot := loading.snapshot;
      if snapshot.active != Some(runId) {
        return PauseRunMismatch;
      }
      if snapshot.disposition != OPEN {
        return PauseCatalogNotOpen;
      }
      if snapshot.generation == MAX_GENERATION {
        return PauseGenerationExhausted;
      }
      var committed := catalog.Replace(Next(snapshot, PAUSED));
      if !committed {
        return PauseReplaceFailed;
      }
      state := Paused;
      outcome := PausedNow;
    }

    static function RequiredToStop(state: ControllerState): Disposition {
      if state.Ready? then OPEN else if state.Paused? then PAUSED else CAPACITY_REACHED
    }

    /**
     * Stops a ready, paused or full run. A run that is stopped leaves nothing behind: every command it accepted was
     * committed, matched and completed, and every result it owed was popped.
     */
    method StopRun(confirmation: Option<u64>) returns (outcome: StopOutcome)
      requires Valid()
      modifies this, catalog, Owned()
      ensures Valid() && fresh(Owned() - old(Owned()))
      ensures outcome.Stopped? ==>
                && state.StoppedRun? && run == null && path == null
                && (old(path) != null ==>
                    && old(path).Valid() && old(path).ProcessingDrained() && old(path).ResultHandoffsDrained()
                    && old(path).accepted == old(path.accepted))
                && old(run) != null && catalog.stored.Some? && catalog.stored.value.active.None?
                && catalog.stored.value.retained == Some(old(run.writer.header.run))
                && Selects(old(catalog.stored), old(run.writer.header.run), RequiredToStop(old(state)), 1)
                && (old(catalog.stored).value.retained.Some? ==> confirmation == old(catalog.stored).value.retained)
                && catalog.stored.value.disposition == NoDisposition
      ensures (&& old(run) != null && old(catalog.fates) == [] && old(state.Paused? || state.CapacityReachedRun?)
               && Selects(old(catalog.stored), old(run).writer.header.run, RequiredToStop(old(state)), 1)
               && (old(catalog.stored).value.retained.Some? ==> confirmation == old(catalog.stored).value.retained)
               && (old(path) != null ==> old(path.ResultHandoffsDrained()))) ==> outcome.Stopped?
      ensures !outcome.Stopped? ==> run == old(run) && path == old(path)
      ensures !outcome.Stopped? && state.StoppedRun? ==> old(state).StoppedRun?
    {
      hide CommandPath.Valid, CommandPath.Accounted, RunState.AtRest, CommandPath.ProcessingDrained,
           CommandPath.ResultHandoffsDrained;
      var initial := state;
      if !initial.Ready? && !initial.Paused? && !initial.CapacityReachedRun? {
        return NotStoppable;
      }
      var loading := catalog.Load();
      if !loading.Loaded? {
        return StopCatalogLoadFailed;
      }
      var snapshot := loading.snapshot;
      var runId := run.writer.header.run;
      if snapshot.active != Some(runId) {
        return StopRunMismatch;
      }
      if snapshot.disposition != RequiredToStop(initial) {
        return StopDispositionMismatch;
      }
      if MAX_GENERATION - snapshot.generation < (if initial.Ready? then 2 else 1) {
        return StopGenerationExhausted;
      }
      if snapshot.retained.Some? {
        if confirmation.None? {
          return ConfirmationRequired;
        }
        if confirmation != snapshot.retained {
          return ConfirmationMismatch;
        }
      }
      if initial.Ready? {
        var pause := PauseRun();
        if !pause.PausedNow? {
          return if pause.ResultHandoffBackpressure? then StopHandoffBackpressure else PauseFailed;
        }
        snapshot := Next(snapshot, PAUSED);
      } else {
        CloseAdmission();
        if path != null && !path.ResultHandoffsDrained() {
          return StopHandoffBackpressure;
        }
      }
      var next := snapshot.(generation := snapshot.generation + 1, active := None, disposition := NoDisposition,
                            retained := Some(runId));
      outcome := PublishStopped(next);
    }

    method PublishStopped(next: Snapshot) returns (outcome: StopOutcome)
      requires Valid() && run != null && !run.index.admissionOpen && (state.Paused? || state.CapacityReachedRun?)
      requires path != null ==> path.ResultHandoffsDrained()
      modifies this, catalog
      ensures Valid() && fresh(Owned() - old(Owned()))
      ensures if outcome.Stopped? then state.StoppedRun? && run == null && path == null && catalog.stored == Some(next)
              else state.UnavailableRun? && run == old(run) && path == old(path)
      ensures outcome.Stopped? && old(path) != null ==> old(path).Valid() && old(path).ProcessingDrained()
      ensures (&& old(catalog.fates) == [] && old(catalog.stored).Some?
               && next.generation == old(catalog.stored).value.generation + 1) ==> outcome.Stopped?
    {
      hide CommandPath.Valid, CommandPath.Accounted, RunState.AtRest, CommandPath.ProcessingDrained,
           CommandPath.ResultHandoffsDrained;
      assert this !in Owned() && catalog !in Owned();
      state := UnavailableRun;
      var committed := catalog.Replace(next);
      if !committed {
        return StopReplaceFailed;
      }
      state, path, run := StoppedRun, null, null;
      outcome := Stopped;
    }

    // ----- Startup and recovery

    /** Takes ownership of a run at rest. */
    method Own(writer: Writer, index: AdmissionIndex, book: MatchingState, ghost batches: seq<Batch>)
      requires run == null && path == null && !index.admissionOpen
      requires writer.Valid() && writer.usable && book.Valid() && book.run == writer.header.run
      requires index.run == writer.header.run && index.capacity == writer.header.maxCommands
      requires Quiescent(writer.header, writer.committed, book.Resting(), index.records, batches)
      modifies this`run, this`state
      ensures Valid() && state.Paused? && run != null && fresh(run) && path == null
      ensures run.writer == writer && run.index == index && run.book == book
    {
      hide Quiescent, Writer.Valid, MatchingState.Valid;
      run := new RunState(writer, index, book, batches);
      state := Paused;
    }

    method OpenAdmission()
      requires Valid() && state.Paused? && run != null && IsOpenFor(catalog.stored, run.writer.header.run)
      modifies this`state, run.index
      ensures Valid() && state.Ready? && run.index.admissionOpen
    {
      hide Quiescent, MatchingState.Valid, Writer.Valid, CommandPath.Sequencing, CommandPath.Matching,
           CommandPath.Admitted, CommandPath.Delivering, CommandPath.AccountedSince;
      run.index.admissionOpen := true;
      state := Ready;
    }

    /**
     * A new run: its journal holds exactly its header, and admission opens only after the open catalog entry for it is
     * committed.
     */
    method StartupNewRun(file: Descriptor, header: Header) returns (outcome: StartupOutcome)
      requires Valid()
      requires WellFormed(header) && KnowsInstruments(header)
      requires file.Valid() && file.bytes == HeaderFrame(header) && file.position == |file.bytes|
      modifies this, catalog
      ensures Valid()
      ensures outcome.StartedReady? ==>
                && old(run) == null && state.Ready? && run != null && fresh(run.index) && run.index.admissionOpen
                && run.writer.header == header && run.writer.committed == [] && run.writer.file == file
                && IsOpenFor(catalog.stored, header.run)
                && (old(catalog.stored).Some? ==>
                      && old(catalog.stored).value.active.None?
                      && catalog.stored.value.retained == old(catalog.stored).value.retained)
      ensures (&& old(run) == null && old(catalog.fates) == []
               && (old(catalog.stored).Some? ==>
                   old(catalog.stored).value.active.None? && old(catalog.stored).value.generation < MAX_GENERATION)) ==>
                outcome.StartedReady?
      ensures !outcome.StartedReady? ==> state == old(state) && run == old(run) && path == old(path)
    {
      hide WellFormed, KnowsInstruments, HeaderFrame, Quiescent, Writer.Valid, MatchingState.Valid, Fits, Wired;
      if run != null {
        return RunAlreadyOwned;
      }
      assert this !in Owned() && catalog !in Owned();
      var loading := catalog.Load();
      if loading.LoadFailed? {
        return StartFailed;
      }
      if loading.Loaded? && (loading.snapshot.active.Some? || loading.snapshot.generation == MAX_GENERATION) {
        return if loading.snapshot.active.Some? then ActiveRunExists else StartFailed;
      }
      var next := if loading.Missing? then Snapshot(1, Some(header.run), OPEN, None)
                  else loading.snapshot.(generation := loading.snapshot.generation + 1, active := Some(header.run),
                                         disposition := OPEN);
      HeaderFits(header);
      JournalOfNone(header);
      FreshRunIsQuiescent(header);
      CountsFit(header, []);
      var book := new MatchingState(header.run);
      var index := new AdmissionIndex(header.maxCommands, header.run, map[]);
      var committed := catalog.Replace(next);
      if !committed {
        return StartFailed;
      }
      NoPath();
      var writer := new Writer(file, header, [], 0, |file.bytes|);
      Own(writer, index, book, []);
      OpenAdmission();
      outcome := StartedReady;
    }

    lemma NoPath()
      requires run == null && Wired()
      ensures path == null
    {
      hide CommandPath.Valid, CommandPath.Accounted;
    }

    method StartupExistingRun(journal: Descriptor) returns (outcome: StartupOutcome)
      requires Valid()
      requires journal.Valid() && journal.position == 0
      requires !Parse(journal.bytes).Corruption? ==> KnowsInstruments(Parse(journal.bytes).header)
      modifies this, catalog, journal
      ensures Valid()
      ensures outcome.StartedPaused? ==>
                && old(run) == null && state.Paused? && run != null && path == null && !run.index.admissionOpen
                && !Parse(old(journal.bytes)).Corruption?
                && run.writer.committed == Parse(old(journal.bytes)).commands
                && catalog.stored.Some? && catalog.stored.value.active == Some(run.writer.header.run)
                && catalog.stored.value.disposition == PAUSED
                && old(catalog.stored).Some? && old(catalog.stored).value.active == Some(run.writer.header.run)
                && old(catalog.stored).value.disposition in {OPEN, PAUSED}
                && catalog.stored.value.retained == old(catalog.stored).value.retained
      ensures (&& old(run) == null && old(catalog.fates) == []
               && ReadsThrough(old(journal.fates), old(journal.bytes))
               && old(catalog.stored).Some? && old(catalog.stored).value.active.Some?
               && old(catalog.stored).value.disposition in {OPEN, PAUSED}
               && old(catalog.stored).value.generation < MAX_GENERATION
               && Recoverable(old(journal.bytes), old(catalog.stored).value.active.value)) ==> outcome.StartedPaused?
      ensures !outcome.StartedPaused? ==> run == old(run) && path == old(path)
    {
      hide KnowsInstruments, Quiescent, Writer.Valid, MatchingState.Valid, Parse, Wired, Recoverable;
      if run != null {
        return ExplicitOperationRequired;
      }
      assert this !in Owned() && catalog !in Owned();
      NoPath();
      state := UnavailableRun;
      assert Wired();
      var loading := catalog.Load();
      if !loading.Loaded? {
        return StartupCatalogLoadFailed;
      }
      var snapshot := loading.snapshot;
      if snapshot.active.None? {
        return NoActiveRun;
      }
      if snapshot.disposition != OPEN && snapshot.disposition != PAUSED {
        return ExplicitOperationRequired;
      }
      if snapshot.generation == MAX_GENERATION {
        return StartupGenerationExhausted;
      }
      var recovery, writer, book, index;
      ghost var batches;
      recovery, writer, book, index, batches := RecoverRun(journal, snapshot.active.value);
      if !recovery.Recovered? {
        state := RecoveryFailed;
        return StartupRecoveryFailed;
      }
      var committed := catalog.Replace(Next(snapshot, PAUSED));
      if !committed {
        return StartupReplaceFailed;
      }
      Own(writer, index, book, batches);
      outcome := StartedPaused;
    }

    /** The journal handed to recovery has the contents of the failed path's own file. */
    ghost predicate IsOwnJournal(bytes: seq<byte>)
      reads this`state, this`run, this`path, Owned()
    {
      state.FailStopped? && path != null && run != null && path.writer == run.writer && bytes == path.writer.file.bytes
    }

    /** Such a journal can always be recovered, and every index rebuilt from it answers with the completed results. */
    lemma OwnJournalIsRecoverable(bytes: seq<byte>)
      requires Valid() && IsOwnJournal(bytes) && |bytes| <= MAX_FILE_OFFSET
      ensures run != null && path != null && path.writer == run.writer
      ensures Recoverable(bytes, run.writer.header.run) && !Parse(bytes).Corruption?
      ensures path.writer.committed <= Parse(bytes).commands
      ensures |Parse(bytes).commands| <= |path.writer.committed| + 1
      ensures SurvivesRestart(path.index.records, run.writer.header.run, Parse(bytes).commands)
    {
      hide *;
      IsOwnMeans(bytes);
      InstalledIs();
      path.FileHolds();
      path.JournalKeysAreDistinct();
      path.ReloadedIs();
      MakeRecoverable(bytes, path.writer.header.run);
      forall rebuilt | Rebuilds(path.writer.header.run, Parse(bytes).commands, rebuilt)
        ensures ResultsSurvive(path.index.records, rebuilt)
      {
        RebuiltFromFile(path, rebuilt);
        path.EveryResultSurvives(rebuilt);
      }
      SurvivesMeans(path.index.records, path.writer.header.run, Parse(bytes).commands);
    }

    /** Remembers the installed path before it is given up, with what recovery will need to know about it. */
    lemma InstalledPath(bytes: seq<byte>) returns (failed: Option<FailedPath>)
      requires Valid()
      ensures failed.Some? <==> IsOwnJournal(bytes) && |bytes| <= MAX_FILE_OFFSET
      ensures failed.Some? ==>
                && state.FailStopped? && run != null && path != null && failed.value.run == run.writer.header.run
                && failed.value.committed == path.writer.committed && failed.value.records == path.index.records
                && Recoverable(bytes, failed.value.run) && !Parse(bytes).Corruption?
                && failed.value.committed <= Parse(bytes).commands
                && |Parse(bytes).commands| <= |failed.value.committed| + 1
                && SurvivesRestart(failed.value.records, failed.value.run, Parse(bytes).commands)
    {
      hide *;
      failed := None;
      if IsOwnJournal(bytes) && |bytes| <= MAX_FILE_OFFSET {
        IsOwnMeans(bytes);
        OwnJournalIsRecoverable(bytes);
        failed := Some(FailedPath(run.writer.header.run, path.writer.committed, path.index.records));
      }
    }

    lemma InstalledIs()
      requires Valid() && state.FailStopped?
      ensures run != null && path != null && path.writer == run.writer && path.Valid()
    {
      hide CommandPath.Valid, CommandPath.Accounted, RunState.AtRest;
    }

    lemma IsOwnMeans(bytes: seq<byte>)
      requires IsOwnJournal(bytes)
      ensures state.FailStopped? && path != null && bytes == path.writer.file.bytes
    {
    }

    /**
     * Rebuilds a run that failed, from the journal its catalog entry selects. An installed path is given up only after
     * its delivered results were popped. Over the failed path's own journal recovery succeeds, with every committed
     * command in the new run, at most the one whose append failed beside them, and every completed result on record.
     */
    method RecoverFailedRun(journal: Descriptor) returns (outcome: RecoverOutcome)
      requires Valid() && journal !in Owned()
      requires journal.Valid() && journal.position == 0
      requires !Parse(journal.bytes).Corruption? ==> KnowsInstruments(Parse(journal.bytes).header)
      modifies this, catalog, journal
      ensures Valid()
      ensures outcome.RecoveredPaused? ==>
                && state.Paused? && run != null && path == null && !run.index.admissionOpen
                && !Parse(old(journal.bytes)).Corruption?
                && run.writer.committed == Parse(old(journal.bytes)).commands
                && catalog.stored.Some? && catalog.stored.value.active == Some(run.writer.header.run)
                && catalog.stored.value.disposition == PAUSED
                && old(RecoveryMayStart()) && old(catalog.stored).value.active == Some(run.writer.header.run)
      ensures !outcome.RecoveredPaused? ==> !state.Ready? || state == old(state)
      ensures outcome.RecoverFailedAgain? ==>
                state.RecoveryFailed? && catalog.stored.Some? && catalog.stored.value.disposition == RECOVERY_FAILED
      ensures (&& old(RecoveryMayStart()) && old(catalog.fates) == []
               && ReadsThrough(old(journal.fates), old(journal.bytes))
               && (|| Recoverable(old(journal.bytes), old(catalog.stored).value.active.value)
                   || (old(IsOwnJournal(journal.bytes)) && |old(journal.bytes)| <= MAX_FILE_OFFSET))) ==>
                outcome.RecoveredPaused?
      ensures old(IsOwnJournal(journal.bytes)) && |old(journal.bytes)| <= MAX_FILE_OFFSET && outcome.RecoveredPaused? ==>
                && old(path) != null && old(path.writer.committed) <= run.writer.committed
                && |run.writer.committed| <= old(|path.writer.committed|) + 1
                && ResultsSurvive(old(path.index.records), run.index.records)
    {
      hide *;
      ghost var failed := InstalledPath(journal.bytes);
      assert this !in Owned() && catalog !in Owned();
      var refusal, snapshot := SelectFailedRun();
      if refusal.Some? {
        return refusal.value;
      }
      LeaveFailedRun();
      outcome := Rebuild(journal, snapshot, snapshot.active.value);
      if failed.Some? && outcome.RecoveredPaused? {
        Survived(failed.value.records, snapshot.active.value, run.writer.committed, run.index.records);
      }
    }

    /** The catalog selects a failed run; an installed one is that run, and everything it delivered has been popped. */
    ghost predicate RecoveryMayStart()
      reads this, catalog, if path == null then {} else {path}
    {
      && catalog.stored.Some? && catalog.stored.value.active.Some? && catalog.stored.value.generation < MAX_GENERATION
      && if state.FailStopped? then
           && run != null && path != null && run.writer.header.run == catalog.stored.value.active.value
           && catalog.stored.value.disposition == FAIL_STOPPED && path.privateResults == [] && path.publicTrades == []
         else
           && (state.UnavailableRun? || state.RecoveryFailed?) && path == null
           && catalog.stored.value.disposition in {FAIL_STOPPED, RECOVERY_FAILED}
    }

    /** The failed run the catalog selects, or why recovery does not start. */
    method SelectFailedRun() returns (refusal: Option<RecoverOutcome>, snapshot: Snapshot)
      requires Valid()
      modifies catalog`fates
      ensures old(catalog.fates) == [] ==> catalog.fates == [] && (refusal.None? <==> old(RecoveryMayStart()))
      ensures Valid()
      ensures refusal.None? ==>
                && old(RecoveryMayStart()) && old(catalog.stored) == catalog.stored == Some(snapshot) && snapshot.active.Some?
                && snapshot.generation < MAX_GENERATION && snapshot.disposition in {FAIL_STOPPED, RECOVERY_FAILED}
                && (!state.FailStopped? ==> path == null && !state.Ready?)
                && (state.FailStopped? ==> run != null && run.writer.header.run == snapshot.active.value)
      ensures refusal.Some? ==> !refusal.value.RecoveredPaused? && !refusal.value.RecoverFailedAgain?
    {
      hide Wired;
      assert catalog !in Owned();
      refusal, snapshot := None, Snapshot(1, None, NoDisposition, None);
      var installed := state.FailStopped?;
      if (!installed && !state.UnavailableRun? && !state.RecoveryFailed?) || (!installed && path != null) {
        return Some(NotRecoverable), snapshot;
      }
      var loading := catalog.Load();
      if !loading.Loaded? {
        return Some(RecoverCatalogLoadFailed), snapshot;
      }
      snapshot := loading.snapshot;
      if snapshot.active.None? {
        return Some(RecoverNoActiveRun), snapshot;
      }
      if installed && run.writer.header.run != snapshot.active.value {
        return Some(RecoverRunMismatch), snapshot;
      }
      if snapshot.disposition != FAIL_STOPPED && (installed || snapshot.disposition != RECOVERY_FAILED) {
        return Some(CatalogNotFailed), snapshot;
      }
      if snapshot.generation == MAX_GENERATION {
        return Some(RecoverGenerationExhausted), snapshot;
      }
      if installed && (path.privateResults != [] || path.publicTrades != []) {
        return Some(RecoverHandoffBackpressure), snapshot;
      }
    }

    /** A failed run with a path is given up; without one there is nothing to give up. */
    method LeaveFailedRun()
      requires Valid() && (!state.FailStopped? ==> path == null && !state.Ready?)
      modifies this`state, this`run, this`path
      ensures Valid() && state.UnavailableRun? && path == null && Owned() <= old(Owned())
    {
      hide CommandPath.Valid, CommandPath.Accounted, RunState.AtRest;
      if state.FailStopped? {
        run, path := null, null;
      }
      state := UnavailableRun;
    }

    method GiveUpRun()
      modifies this`run, this`path
      ensures run == null && path == null && Wired()
    {
      run, path := null, null;
    }

    method Rebuild(journal: Descriptor, snapshot: Snapshot, runId: u64) returns (outcome: RecoverOutcome)
      requires Valid() && path == null && state.UnavailableRun? && journal !in Owned()
      requires snapshot.active == Some(runId) && snapshot.generation < MAX_GENERATION && catalog.stored == Some(snapshot)
      requires snapshot.disposition in {FAIL_STOPPED, RECOVERY_FAILED}
      requires journal.Valid() && journal.position == 0
      requires !Parse(journal.bytes).Corruption? ==> KnowsInstruments(Parse(journal.bytes).header)
      modifies this, catalog, journal
      ensures Valid() && !state.Ready? && (outcome.RecoveredPaused? <==> state.Paused?)
      ensures (&& old(catalog.fates) == [] && ReadsThrough(old(journal.fates), old(journal.bytes))
               && Recoverable(old(journal.bytes), runId)) ==> outcome.RecoveredPaused?
      ensures outcome.RecoverFailedAgain? ==>
                && state.RecoveryFailed? && catalog.stored.Some? && catalog.stored.value.active == Some(runId)
                && catalog.stored.value.disposition == RECOVERY_FAILED
      ensures outcome.RecoveredPaused? ==>
                && run != null && path == null && !run.index.admissionOpen
                && !Parse(old(journal.bytes)).Corruption?
                && run.writer.committed == Parse(old(journal.bytes)).commands
                && catalog.stored.Some? && catalog.stored.value.active == Some(run.writer.header.run)
                && catalog.stored.value.disposition == PAUSED
                && run.writer.header.run == runId && Rebuilds(runId, run.writer.committed, run.index.records)
    {
      hide KnowsInstruments, Quiescent, Writer.Valid, MatchingState.Valid, Parse, Wired, Recoverable, Rebuilds, ReadsThrough,
           RunState.AtRest, CommandPath.Valid, CommandPath.Accounted;
      assert this !in Owned() && catalog !in Owned();
      var recovery, writer, book, index;
      ghost var batches;
      recovery, writer, book, index, batches := RecoverRun(journal, runId);
      assert Wired();
      if recovery.Recovered? {
        QuiescentRebuilds(writer.header, writer.committed, book.Resting(), index.records, batches);
      }
      if !recovery.Recovered? && snapshot.disposition == RECOVERY_FAILED {
        state := RecoveryFailed;
        return RecoverFailedAgain;
      }
      var next := snapshot.(generation := snapshot.generation + 1,
                            disposition := if recovery.Recovered? then PAUSED else RECOVERY_FAILED);
      var committed := catalog.Replace(next);
      if !committed {
        return RecoverReplaceFailed;
      }
      if !recovery.Recovered? {
        state := RecoveryFailed;
        return RecoverFailedAgain;
      }
      GiveUpRun();
      Own(writer, index, book, batches);
      outcome := RecoveredPaused;
    }
  }

  /** What a failed path held when its recovery began. */
  datatype FailedPath = FailedPath(run: u64, committed: seq<Command>, records: Records)

  /** Whichever way these commands are replayed, the results completed before are completed after. */
  ghost predicate SurvivesRestart(before: Records, run: u64, commands: seq<Command>) {
    forall rebuilt :: Rebuilds(run, commands, rebuilt) ==> ResultsSurvive(before, rebuilt)
  }

  lemma SurvivesMeans(before: Records, run: u64, commands: seq<Command>)
    requires forall rebuilt :: Rebuilds(run, commands, rebuilt) ==> ResultsSurvive(before, rebuilt)
    ensures SurvivesRestart(before, run, commands)
  {
    hide Rebuilds, ResultsSurvive;
  }

  lemma Survived(before: Records, run: u64, commands: seq<Command>, rebuilt: Records)
    requires SurvivesRestart(before, run, commands) && Rebuilds(run, commands, rebuilt)
    ensures ResultsSurvive(before, rebuilt)
  {
    hide Rebuilds, ResultsSurvive;
  }

  lemma RebuiltFromFile(path: CommandPath, rebuilt: Records)
    requires !Parse(path.writer.file.bytes).Corruption?
    requires Rebuilds(path.writer.header.run, Parse(path.writer.file.bytes).commands, rebuilt)
    ensures path.RebuiltFrom(rebuilt)
  {
    hide Parse, Rebuilds;
  }

  lemma MakeRecoverable(bytes: seq<byte>, run: u64)
    requires !Parse(bytes).Corruption? && Parse(bytes).header.run == run && |bytes| <= MAX_FILE_OFFSET
    requires DistinctKeys(MessagesFrom(Parse(bytes).commands))
    ensures Recoverable(bytes, run)
  {
    hide Parse, DistinctKeys, Journal, Fits;
    LoadedIsPrinted(bytes);
  }

  lemma QuiescentRebuilds(h: Header, committed: seq<Command>, resting: Book, records: Records, batches: seq<Batch>)
    requires Quiescent(h, committed, resting, records, batches)
    ensures Rebuilds(h.run, committed, records)
  {
    hide KnowsInstruments, Fits, Recorded, Run, RunSucceeds;
  }
}
