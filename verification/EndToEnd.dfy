/** From matching to the wire: what the command path hands over is always accepted and routed by the gateway. */
module EndToEnd {
  import opened LittleEndian
  import opened Domain
  import opened PriceTime
  import opened PriceTimeTheorems
  import opened CommandCodec
  import opened HeaderCodec
  import opened JournalFile
  import opened JournalWriter
  import opened Replay
  import opened AdmissionRecovery
  import opened ResultProjection
  import opened Delivery
  import opened Pipeline
  import opened ApplicationJson
  import opened ApplicationGateway

  ghost predicate OwnersKnown(b: Book) {
    forall id | id in b :: b[id].owner > 0
  }

  /** Every client an event concerns is a real one. */
  ghost predicate ClientsKnown(events: seq<Event>) {
    forall k | 0 <= k < |events| :: Known(events[k])
  }

  predicate Known(e: Event) {
    if e.Trade? then e.makerClientId > 0 && e.takerClientId > 0 else e.clientId > 0
  }

  lemma {:induction false} FillClients(run: u64, b: Book, m: Message, remaining: u64, index: nat)
    requires Positive(b) && OwnersKnown(b) && m.clientId > 0
    ensures ClientsKnown(Fill(run, b, m, remaining, index).trades)
    decreases remaining
  {
    hide Fill;
    if remaining > 0 && exists id :: Matches(b, m, id) {
      var id :| Matches(b, m, id);
      var quantity := Min(remaining, b[id].quantity);
      FillStep(run, b, m, remaining, index, id);
      FillClients(run, Reduce(b, id, quantity), m, remaining - quantity, index + 1);
    } else {
      FillStop(run, b, m, remaining, index);
    }
  }

  lemma ApplyClients(run: u64, b: Book, m: Message)
    requires Positive(b) && OwnersKnown(b) && Apply(run, b, m).Done?
    ensures OwnersKnown(Apply(run, b, m).book) && ClientsKnown(Apply(run, b, m).batch.events)
  {
    hide Fill, Aggregate, Quantity;
    if IsNewOrder(m) {
      FillClients(run, b, m, m.quantity, 0);
      FillShrinks(run, b, m, m.quantity, 0);
    }
  }

  lemma {:induction false} RunClients(run: u64, ms: seq<Message>)
    requires RunSucceeds(run, ms)
    ensures OwnersKnown(Run(run, ms).book)
    ensures forall k | 0 <= k < |Run(run, ms).batches| :: ClientsKnown(Run(run, ms).batches[k].events)
    decreases |ms|
  {
    hide Apply, ClientsKnown;
    if ms != [] {
      var front := ms[..|ms| - 1];
      RunClients(run, front);
      ApplyClients(run, Run(run, front).book, ms[|ms| - 1]);
    }
  }

  lemma {:induction false} MentionsKnown(events: seq<Event>)
    requires ClientsKnown(events)
    ensures forall c | c in Mentions(events) :: c > 0
    decreases |events|
  {
    if events != [] {
      MentionsKnown(events[..|events| - 1]);
      assert Known(events[|events| - 1]);
    }
  }

  /** Every result of a running path is one the gateway accepts. */
  lemma LiveResult(path: CommandPath, k: nat)
    requires path.Valid() && k < |path.batches|
    ensures FromController(path.batches[k]) && ClientsKnown(path.batches[k].events)
  {
    hide *;
    path.CommittedReplays();
    path.EveryCommandInOneStage();
    path.ValidParts();
    var h, committed := path.writer.header, path.writer.committed;
    JournalIsKnown(path);
    var results := Run(h.run, MessagesFrom(committed)).batches;
    OwnIs(h, committed);
    ResultAt(h, committed, results, k);
    RunClients(h.run, MessagesFrom(committed));
    assert path.batches[k] == results[k];
    MakeFromController(path.batches[k], k + 1, h.run);
  }

  lemma OwnIs(h: Header, committed: seq<Command>)
    requires RunSucceeds(h.run, MessagesFrom(committed))
    ensures OwnResults(h, committed, Run(h.run, MessagesFrom(committed)).batches)
  {
    hide Run, RunSucceeds;
  }

  lemma JournalIsKnown(path: CommandPath)
    requires path.Sequencing()
    ensures KnowsInstruments(path.writer.header) && Fits(path.writer.header, path.writer.committed)
  {
    hide KnowsInstruments, Fits, Writer.Valid;
    WriterCounts(path.writer);
  }

  lemma MakeFromController(batch: Batch, sequence: u64, run: u64)
    requires batch.correlation.sequence == sequence && batch.correlation.run == run
    requires 1 <= |batch.events| <= MAX_EVENTS_PER_COMMAND
    requires forall i | 0 <= i < |batch.events| :: batch.events[i].eventId == EventId(sequence, i, run)
    ensures FromController(batch)
  {
  }

  /** Every private batch popped from a path is one complete fan-out, so the gateway routes it to each client. */
  lemma PoppedPrivateIsRouted(path: CommandPath, k: nat)
    requires path.Valid() && k < |path.poppedPrivate|
    ensures path.first + k < |path.batches|
    ensures OneFanOut(path.batches[path.first + k], path.poppedPrivate[k])
  {
    hide *;
    path.ValidParts();
    path.DeliveringMeans();
    HandedIs(path.batches, path.first, path.completed, path.dispatch, path.handedPrivate, path.handedPublic, k);
    assert path.poppedPrivate[k] == path.handedPrivate[k];
    LiveResult(path, path.first + k);
    MakeOneFanOut(path.batches[path.first + k], path.poppedPrivate[k]);
  }

  /** Every public batch popped from a path is the trades of one result, so the gateway accepts it as one message. */
  lemma PoppedPublicIsRouted(path: CommandPath, k: nat) returns (j: nat)
    requires path.Valid() && k < |path.poppedPublic|
    ensures path.first <= j < |path.batches|
    ensures path.poppedPublic[k] == PublicTrades(path.batches[j].events) && OneResult(path.poppedPublic[k])
  {
    hide *;
    path.ValidParts();
    path.DeliveringMeans();
    j := HandedPublicIs(path.batches, path.first, path.completed, path.dispatch, path.handedPrivate, path.handedPublic, k);
    assert path.poppedPublic[k] == path.handedPublic[k];
    LiveResult(path, j);
    ControllerTradesAreOneResult(path.batches[j]);
  }

  lemma HandedPublicIs(batches: seq<Batch>, first: nat, completed: nat, d: Dispatch,
                       handedPrivate: seq<seq<RecipientResult>>, handedPublic: seq<seq<PublicTrade>>, k: nat)
    returns (j: nat)
    requires Delivered(batches, first, completed, d, handedPrivate, handedPublic) && k < |handedPublic|
    ensures first <= j < |batches| && handedPublic[k] == PublicTrades(batches[j].events) != []
  {
    hide IsFanOut, TradeBatches, Pending, PublicTrades;
    var published := completed - (if d.publicTrades != [] then 1 else 0);
    var i := TradeBatchIsOneResult(batches[first..published], k);
    j := first + i;
  }

  /**
   * The gateway's public step over a running path: what it pops is always accepted, so it never fails by itself, and
   * every connection of the run with room for the trades of one result receives them as one message.
   */
  method RoutePublic(path: CommandPath, gateway: Gateway) returns (outcome: AdvanceOutcome)
    requires path.Valid() && gateway.Valid()
    modifies path`publicTrades, path`queuedPublicRecords, path`poppedPublic,
             gateway`connections, gateway`pendingPublic, gateway`publicFailed
    ensures path.Valid() && gateway.Valid()
    ensures gateway.publicFailed == old(gateway.publicFailed)
    ensures outcome.Routed? <==> !old(gateway.publicFailed) && old(path.publicTrades) != []
    ensures outcome.Routed? ==>
              && path.publicTrades == old(path.publicTrades)[1..]
              && TradesServed(old(gateway.connections), old(path.publicTrades)[0], gateway.capacity, gateway.connections)
    ensures !outcome.Routed? ==> path.publicTrades == old(path.publicTrades) && gateway.connections == old(gateway.connections)
  {
    hide *;
    if gateway.publicFailed {
      return FailedInput;
    }
    var popped := path.TryPopPublicTradeBatch();
    if popped.Some? {
      var j := PoppedPublicIsRouted(path, |path.poppedPublic| - 1);
    }
    outcome := gateway.AdvancePublic(popped);
  }

  /** The results are the whole fan-out of the batch, and every connection of its run receives its own part. */
  ghost predicate FanOutServed(before: seq<Connection>, batch: Batch, results: seq<RecipientResult>, capacity: nat,
                               after: seq<Connection>)
  {
    && OneFanOut(batch, results) && (forall k | 0 <= k < |results| :: Serializable(results[k].privateResult))
    && (forall c | c in before :: ResultsServed(c, batch.correlation.run, results, capacity, after))
  }

  lemma MakeFanOutServed(before: seq<Connection>, batch: Batch, results: seq<RecipientResult>, capacity: nat,
                         after: seq<Connection>)
    requires OneFanOut(batch, results) && forall k | 0 <= k < |results| :: Serializable(results[k].privateResult)
    requires forall c | c in before :: ResultsServed(c, batch.correlation.run, results, capacity, after)
    ensures FanOutServed(before, batch, results, capacity, after)
  {
    hide OneFanOut, ResultsServed, Serializable;
  }

  /** The private step: every popped fan-out is accepted, and each connection with room gets exactly its own message. */
  method RoutePrivate(path: CommandPath, gateway: Gateway) returns (outcome: AdvanceOutcome, ghost batch: Option<Batch>)
    requires path.Valid() && gateway.Valid()
    modifies path`privateResults, path`queuedPrivateEvents, path`poppedPrivate,
             gateway`connections, gateway`pendingPrivate, gateway`privateFailed
    ensures path.Valid() && gateway.Valid()
    ensures gateway.privateFailed == old(gateway.privateFailed)
    ensures outcome.Routed? <==> !old(gateway.privateFailed) && old(path.privateResults) != []
    ensures outcome.Routed? ==>
              && path.privateResults == old(path.privateResults)[1..] && batch.Some? && batch.value in path.batches
              && FanOutServed(old(gateway.connections), batch.value, old(path.privateResults)[0], gateway.capacity,
                              gateway.connections)
    ensures !outcome.Routed? ==>
              path.privateResults == old(path.privateResults) && gateway.connections == old(gateway.connections)
  {
    hide *;
    batch := None;
    if gateway.privateFailed {
      return FailedInput, None;
    }
    var popped := path.TryPopPrivateResultBatch();
    ghost var owner := NO_BATCH;
    if popped.Some? {
      ghost var k := |path.poppedPrivate| - 1;
      PoppedPrivateIsRouted(path, k);
      owner := path.batches[path.first + k];
      FanOutDeliveries(owner, popped.value, MIN_OUTBOUND_CAPACITY);
      batch := Some(owner);
    }
    ghost var before := gateway.connections;
    outcome := gateway.AdvancePrivate(popped, owner);
    if outcome.Routed? {
      MakeFanOutServed(before, owner, popped.value, gateway.capacity, gateway.connections);
    }
  }

  ghost const NO_BATCH: Batch := Batch(Correlation(0, [120], 0, 0), Applied, [])

  lemma HandedIs(batches: seq<Batch>, first: nat, completed: nat, d: Dispatch,
                 handedPrivate: seq<seq<RecipientResult>>, handedPublic: seq<seq<PublicTrade>>, k: nat)
    requires Delivered(batches, first, completed, d, handedPrivate, handedPublic) && k < |handedPrivate|
    ensures first + k < |batches| && IsFanOut(batches[first + k], handedPrivate[k])
  {
    hide IsFanOut, TradeBatches, Pending;
  }

  lemma MakeOneFanOut(batch: Batch, results: seq<RecipientResult>)
    requires FromController(batch) && ClientsKnown(batch.events) && IsFanOut(batch, results)
    ensures OneFanOut(batch, results)
  {
    hide FromController, ClientsKnown, Projection, Mentions;
    MentionsKnown(batch.events);
    forall k | 0 <= k < |results|
      ensures results[k].recipient > 0
    {
      assert results[k].recipient == Recipients(batch.events)[k];
      assert results[k].recipient in Mentions(batch.events);
    }
  }
}
