/** What a command's result means to each client it affects, and to the public. */
module ResultProjection {
  import opened LittleEndian
  import opened Domain

  datatype TradeRole = Maker | Taker

  datatype PrivateEvent =
    | PrivateTrade(eventId: EventId, instrumentId: u64, orderId: u64, side: Side, role: TradeRole,
                   executionPrice: u64, executionQuantity: u64, remainingQuantity: u64)
    | Forwarded(event: Event)

  datatype RecipientResult = RecipientResult(
    recipient: u64, correlation: Option<Correlation>, privateResult: seq<PrivateEvent>)

  datatype PublicTrade = PublicTrade(
    eventId: EventId, instrumentId: u64, executionPrice: u64, executionQuantity: u64, aggressorSide: Side)

  function Opposite(side: Side): Side {
    if side.Buy? then Sell else Buy
  }

  // ----- The projection of one client, event by event

  function MakerView(e: Event): PrivateEvent
    requires e.Trade?
  {
    PrivateTrade(e.eventId, e.instrumentId, e.makerOrderId, Opposite(e.takerSide), Maker, e.executionPrice,
                 e.executionQuantity, e.makerRemaining)
  }

  function TakerView(e: Event): PrivateEvent
    requires e.Trade?
  {
    PrivateTrade(e.eventId, e.instrumentId, e.takerOrderId, e.takerSide, Taker, e.executionPrice,
                 e.executionQuantity, e.takerRemaining)
  }

  function Increment(e: Event, client: u64): nat {
    if e.Trade? then (if e.makerClientId == client then 1 else 0) + (if e.takerClientId == client then 1 else 0)
    else if e.clientId == client then 1 else 0
  }

  /** A client that trades with itself sees the trade twice, as maker first. */
  function EventView(e: Event, client: u64): (view: seq<PrivateEvent>)
    ensures |view| == Increment(e, client)
  {
    if e.Trade? then
      (if e.makerClientId == client then [MakerView(e)] else []) +
      (if e.takerClientId == client then [TakerView(e)] else [])
    else if e.clientId == client then [Forwarded(e)] else []
  }

  function View(events: seq<Event>, client: u64): seq<PrivateEvent> {
    if events == [] then []
    else View(events[..|events| - 1], client) + EventView(events[|events| - 1], client)
  }

  function CorrelationFor(batch: Batch, client: u64): Option<Correlation> {
    if client == batch.correlation.clientId then Some(batch.correlation) else None
  }

  /** What one client is told, if the command affects it. */
  function Projection(batch: Batch, client: u64): Option<RecipientResult> {
    if View(batch.events, client) == [] then None
    else Some(RecipientResult(client, CorrelationFor(batch, client), View(batch.events, client)))
  }

  /** Counts first, then projects. */
  method ProjectPrivateResult(batch: Batch, recipient: u64) returns (projected: Option<RecipientResult>)
    ensures projected == Projection(batch, recipient)
  {
    var events := batch.events;
    var count := 0;
    for i := 0 to |events|
      invariant count == |View(events[..i], recipient)|
    {
      assert events[..i + 1][..i] == events[..i];
      count := count + Increment(events[i], recipient);
    }
    assert events[..|events|] == events;
    if count == 0 {
      return None;
    }
    var privateResult: seq<PrivateEvent> := [];
    for i := 0 to |events|
      invariant privateResult == View(events[..i], recipient)
    {
      assert events[..i + 1][..i] == events[..i];
      privateResult := privateResult + EventView(events[i], recipient);
    }
    projected := Some(RecipientResult(recipient, CorrelationFor(batch, recipient), privateResult));
  }

  // ----- Who is affected, in order of first appearance

  function Affected(e: Event): (clients: seq<u64>)
    ensures 1 <= |clients| <= 2
    ensures |clients| == 2 ==> clients[0] != clients[1]
    ensures forall c :: c in clients <==> Increment(e, c) > 0
  {
    if e.Trade? then
      if e.takerClientId != e.makerClientId then [e.makerClientId, e.takerClientId] else [e.makerClientId]
    else [e.clientId]
  }

  /** Every client of every event, maker before taker, with repetitions. */
  function Mentions(events: seq<Event>): seq<u64> {
    if events == [] then [] else Mentions(events[..|events| - 1]) + Affected(events[|events| - 1])
  }

  /** Repetitions dropped, first appearances kept in place. */
  function Distinct(clients: seq<u64>): (d: seq<u64>)
    ensures forall c :: c in d <==> c in clients
    ensures forall i, j :: 0 <= i < j < |d| ==> d[i] != d[j]
  {
    if clients == [] then []
    else
      var last := clients[|clients| - 1];
      var front := Distinct(clients[..|clients| - 1]);
      assert clients == clients[..|clients| - 1] + [last];
      if last in front then front else front + [last]
  }

  function Recipients(events: seq<Event>): seq<u64> {
    Distinct(Mentions(events))
  }

  lemma {:induction false} MentionedIffViewed(events: seq<Event>, client: u64)
    ensures client in Mentions(events) <==> View(events, client) != []
    decreases |events|
  {
    if events != [] {
      MentionedIffViewed(events[..|events| - 1], client);
    }
  }

  // ----- The fan-out

  /** The fan-out agrees with every client's own projection and lists the affected clients once, in order. */
  ghost predicate IsFanOut(batch: Batch, results: seq<RecipientResult>) {
    && |results| == |Recipients(batch.events)|
    && (forall k | 0 <= k < |results| ::
          && results[k].recipient == Recipients(batch.events)[k]
          && Projection(batch, results[k].recipient) == Some(results[k]))
    && (forall client :: Projection(batch, client).Some? ==>
          exists k :: 0 <= k < |results| && results[k].recipient == client)
  }

  datatype RecipientPlan = RecipientPlan(clientId: u64, projectedEventCount: nat)

  function FindPlan(plans: seq<RecipientPlan>, client: u64): (k: nat)
    ensures k <= |plans|
    ensures k < |plans| ==> plans[k].clientId == client
    ensures forall j | 0 <= j < k :: plans[j].clientId != client
  {
    if plans == [] || plans[0].clientId == client then 0 else 1 + FindPlan(plans[1..], client)
  }

  function FindResult(results: seq<RecipientResult>, client: u64): (k: nat)
    ensures k <= |results|
    ensures k < |results| ==> results[k].recipient == client
    ensures forall j | 0 <= j < k :: results[j].recipient != client
  {
    if results == [] || results[0].recipient == client then 0 else 1 + FindResult(results[1..], client)
  }

  /** Part of an event that has been handled: the clients in `done` have been counted, the others not yet. */
  function Partial(events: seq<Event>, e: Event, done: seq<u64>, client: u64): nat {
    |View(events, client)| + (if client in done then Increment(e, client) else 0)
  }

  /** The plan while an event is being counted: the clients in `done` have been counted for it. */
  ghost predicate Planned(before: seq<Event>, e: Event, done: seq<u64>, plans: seq<RecipientPlan>) {
    var clients := Distinct(Mentions(before) + done);
    && |plans| == |clients|
    && (forall k | 0 <= k < |plans| :: plans[k] == RecipientPlan(clients[k], Partial(before, e, done, clients[k])))
  }

  method PlanRecipient(ghost before: seq<Event>, ghost done: seq<u64>, plans: seq<RecipientPlan>, e: Event,
                       recipient: u64)
    returns (after: seq<RecipientPlan>)
    requires Planned(before, e, done, plans) && recipient !in done
    ensures Planned(before, e, done + [recipient], after)
  {
    hide *;
    MentionedIffViewed(before, recipient);
    var k := FindPlan(plans, recipient);
    if k == |plans| {
      after := plans + [RecipientPlan(recipient, Increment(e, recipient))];
    } else {
      after := plans[k := plans[k].(projectedEventCount := plans[k].projectedEventCount + Increment(e, recipient))];
    }
    PlannedOneMore(before, e, done, plans, recipient, k, after);
  }

  lemma PlannedOneMore(before: seq<Event>, e: Event, done: seq<u64>, plans: seq<RecipientPlan>, recipient: u64, k: nat,
                       after: seq<RecipientPlan>)
    requires Planned(before, e, done, plans) && recipient !in done && k <= |plans|
    requires View(before, recipient) != [] <==> recipient in Mentions(before)
    requires forall j | 0 <= j < k :: plans[j].clientId != recipient
    requires k < |plans| ==> plans[k].clientId == recipient
    requires after == if k == |plans| then plans + [RecipientPlan(recipient, Increment(e, recipient))]
                      else plans[k := RecipientPlan(recipient, plans[k].projectedEventCount + Increment(e, recipient))]
    ensures Planned(before, e, done + [recipient], after)
  {
    hide *;
    var clients := Mentions(before) + done;
    var listed := Distinct(clients);
    PlannedMeans(before, e, done, plans);
    PlannedMeans(before, e, done + [recipient], after);
    DistinctSnoc(clients, recipient);
    assert clients + [recipient] == Mentions(before) + (done + [recipient]);
    PartialOfOthers(before, e, done, recipient);
    FoundIfListed(plans, listed, recipient, k);
  }

  /** Searching the plan is searching the clients it lists. */
  lemma FoundIfListed(plans: seq<RecipientPlan>, listed: seq<u64>, recipient: u64, k: nat)
    requires |plans| == |listed| && k <= |plans|
    requires forall j | 0 <= j < |plans| :: plans[j].clientId == listed[j]
    requires forall j | 0 <= j < k :: plans[j].clientId != recipient
    requires k < |plans| ==> plans[k].clientId == recipient
    ensures k < |plans| <==> recipient in listed
  {
    assert forall j | 0 <= j < k :: listed[j] == plans[j].clientId;
    assert k < |plans| ==> listed[k] == recipient;
  }

  lemma PlannedMeans(before: seq<Event>, e: Event, done: seq<u64>, plans: seq<RecipientPlan>)
    ensures Planned(before, e, done, plans) <==>
            var clients := Distinct(Mentions(before) + done);
            && |plans| == |clients|
            && (forall k | 0 <= k < |plans| ::
                  plans[k] == RecipientPlan(clients[k], Partial(before, e, done, clients[k])))
  {
    hide Mentions, Distinct, Partial;
  }

  /** Counting one client changes no other client's count. */
  lemma PartialOfOthers(before: seq<Event>, e: Event, done: seq<u64>, recipient: u64)
    requires recipient !in done
    ensures forall c | c != recipient ::
              Partial(before, e, done + [recipient], c) == Partial(before, e, done, c)
    ensures Partial(before, e, done + [recipient], recipient) ==
            Partial(before, e, done, recipient) + Increment(e, recipient)
    ensures View(before, recipient) == [] ==> Partial(before, e, done, recipient) == 0
  {
    hide View, Increment;
  }

  /** First pass, one event. */
  method PlanEvent(ghost before: seq<Event>, plans: seq<RecipientPlan>, e: Event) returns (after: seq<RecipientPlan>)
    requires PlansFor(before, plans)
    ensures PlansFor(before + [e], after)
  {
    hide *;
    after := plans;
    var recipients := Affected(e);
    assert recipients[..0] == [];
    NothingPlanned(before, plans, e);
    for index := 0 to |recipients|
      invariant Planned(before, e, recipients[..index], after)
    {
      assert recipients[..index + 1] == recipients[..index] + [recipients[index]];
      after := PlanRecipient(before, recipients[..index], after, e, recipients[index]);
    }
    assert recipients[..|recipients|] == recipients;
    PlannedAll(before, e, after);
  }

  lemma NothingPlanned(before: seq<Event>, plans: seq<RecipientPlan>, e: Event)
    requires PlansFor(before, plans)
    ensures Planned(before, e, [], plans)
  {
    hide View, Increment, Distinct, Mentions;
    assert Mentions(before) + [] == Mentions(before);
  }

  lemma PlannedAll(before: seq<Event>, e: Event, plans: seq<RecipientPlan>)
    requires Planned(before, e, Affected(e), plans)
    ensures PlansFor(before + [e], plans)
  {
    hide Distinct, Affected;
    assert (before + [e])[..|before|] == before;
    forall k | 0 <= k < |plans|
      ensures |View(before + [e], plans[k].clientId)| == Partial(before, e, Affected(e), plans[k].clientId)
    {
    }
  }

  lemma DistinctSnoc(clients: seq<u64>, c: u64)
    ensures Distinct(clients + [c]) == if c in Distinct(clients) then Distinct(clients) else Distinct(clients) + [c]
  {
    assert (clients + [c])[..|clients|] == clients;
  }

  /** The plan reserves exactly the room each recipient will need. */
  ghost predicate PlansFor(events: seq<Event>, plans: seq<RecipientPlan>) {
    && |plans| == |Recipients(events)|
    && (forall k | 0 <= k < |plans| ::
          plans[k] == RecipientPlan(Recipients(events)[k], |View(events, Recipients(events)[k])|))
  }

  /** Second pass, one event: no recipient is ever missing from the plan. */
  method FanOutEvent(ghost before: seq<Event>, results: seq<RecipientResult>, e: Event)
    returns (after: seq<RecipientResult>)
    requires forall client | client in Affected(e) :: exists k | 0 <= k < |results| :: results[k].recipient == client
    requires forall i, j | 0 <= i < j < |results| :: results[i].recipient != results[j].recipient
    requires forall k | 0 <= k < |results| :: results[k].privateResult == View(before, results[k].recipient)
    ensures |after| == |results|
    ensures forall k | 0 <= k < |after| ::
              after[k] == results[k].(privateResult := View(before + [e], results[k].recipient))
  {
    hide View, EventView, Affected;
    after := results;
    var recipients := Affected(e);
    for index := 0 to |recipients|
      invariant Told(before, results, recipients[..index], e, after)
    {
      assert recipients[..index + 1] == recipients[..index] + [recipients[index]];
      assert recipients[index] in Affected(e);
      ghost var present :| 0 <= present < |results| && results[present].recipient == recipients[index];
      after := FanOutRecipient(before, results, recipients[..index], present, after, e, recipients[index]);
    }
    assert recipients[..|recipients|] == recipients;
    ToldAll(before, results, e, after);
  }

  lemma ToldAll(before: seq<Event>, results: seq<RecipientResult>, e: Event, after: seq<RecipientResult>)
    requires Told(before, results, Affected(e), e, after)
    ensures |after| == |results|
    ensures forall k | 0 <= k < |after| ::
              after[k] == results[k].(privateResult := View(before + [e], results[k].recipient))
  {
    hide Affected;
    assert (before + [e])[..|before|] == before;
    forall k | 0 <= k < |after|
      ensures View(before + [e], results[k].recipient) ==
              View(before, results[k].recipient) + EventView(e, results[k].recipient)
      ensures results[k].recipient !in Affected(e) ==> EventView(e, results[k].recipient) == []
    {
    }
  }

  /** The results while an event is being handed out: the clients in `done` have been told. */
  ghost predicate Told(before: seq<Event>, results: seq<RecipientResult>, done: seq<u64>, e: Event,
                       after: seq<RecipientResult>)
  {
    && |after| == |results|
    && (forall k | 0 <= k < |after| ::
          after[k] == results[k].(privateResult := View(before, results[k].recipient) +
            (if results[k].recipient in done then EventView(e, results[k].recipient) else [])))
  }

  method FanOutRecipient(ghost before: seq<Event>, ghost results: seq<RecipientResult>, ghost done: seq<u64>,
                         ghost present: nat, told: seq<RecipientResult>, e: Event, recipient: u64)
    returns (after: seq<RecipientResult>)
    requires Told(before, results, done, e, told) && recipient !in done
    requires present < |results| && results[present].recipient == recipient
    requires forall i, j | 0 <= i < j < |results| :: results[i].recipient != results[j].recipient
    ensures Told(before, results, done + [recipient], e, after)
  {
    hide View, EventView;
    assert told[present].recipient == recipient;
    var k := FindResult(told, recipient);
    hide FindResult;
    if k == |told| {
      assert false; // every affected client was planned
    }
    assert forall j | 0 <= j < |told| && j != k :: told[j].recipient != recipient;
    after := told[k := told[k].(privateResult := told[k].privateResult + EventView(e, recipient))];
  }

  /** First pass, over all events. */
  method PlanRecipients(events: seq<Event>) returns (plans: seq<RecipientPlan>)
    ensures PlansFor(events, plans)
  {
    plans := [];
    assert PlansFor([], plans);
    hide *;
    assert events[..0] == [];
    for i := 0 to |events|
      invariant PlansFor(events[..i], plans)
    {
      plans := PlanEvent(events[..i], plans, events[i]);
      assert events[..i + 1] == events[..i] + [events[i]];
    }
    assert events[..|events|] == events;
  }

  method ProjectPrivateResults(batch: Batch) returns (projected: seq<RecipientResult>)
    ensures IsFanOut(batch, projected)
  {
    hide View, Distinct, Mentions, PlansFor;
    var events := batch.events;
    var plans := PlanRecipients(events);
    NothingViewed(plans);
    PlansAreDistinct(events, plans);
    projected := seq(|plans|, k requires 0 <= k < |plans| =>
      RecipientResult(plans[k].clientId, CorrelationFor(batch, plans[k].clientId), []));
    assert events[..0] == [];
    for i := 0 to |events|
      invariant |projected| == |plans|
      invariant forall k | 0 <= k < |projected| ::
                  projected[k] == RecipientResult(plans[k].clientId, CorrelationFor(batch, plans[k].clientId),
                                                  View(events[..i], plans[k].clientId))
    {
      AffectedArePlanned(events, i, plans);
      projected := FanOutEvent(events[..i], projected, events[i]);
      assert events[..i + 1] == events[..i] + [events[i]];
    }
    assert events[..|events|] == events;
    FanOutComplete(batch, plans, projected);
  }

  lemma PlansAreDistinct(events: seq<Event>, plans: seq<RecipientPlan>)
    requires PlansFor(events, plans)
    ensures forall i, j | 0 <= i < j < |plans| :: plans[i].clientId != plans[j].clientId
  {
    hide View, Mentions;
  }

  lemma FanOutComplete(batch: Batch, plans: seq<RecipientPlan>, projected: seq<RecipientResult>)
    requires PlansFor(batch.events, plans) && |projected| == |plans|
    requires forall k | 0 <= k < |projected| ::
               projected[k] == RecipientResult(plans[k].clientId, CorrelationFor(batch, plans[k].clientId),
                                               View(batch.events, plans[k].clientId))
    ensures IsFanOut(batch, projected)
  {
    hide View, Distinct, Mentions;
    var events := batch.events;
    forall client | Projection(batch, client).Some?
      ensures exists k :: 0 <= k < |projected| && projected[k].recipient == client
    {
      MentionedIffViewed(events, client);
      var k :| 0 <= k < |Recipients(events)| && Recipients(events)[k] == client;
      assert projected[k].recipient == client;
    }
    forall k | 0 <= k < |projected|
      ensures projected[k].recipient == Recipients(events)[k]
      ensures Projection(batch, projected[k].recipient) == Some(projected[k])
    {
      MentionedIffViewed(events, projected[k].recipient);
      assert Recipients(events)[k] in Recipients(events);
    }
  }

  lemma NothingViewed(plans: seq<RecipientPlan>)
    ensures forall k | 0 <= k < |plans| :: View([], plans[k].clientId) == []
  {
  }

  lemma AffectedArePlanned(events: seq<Event>, i: nat, plans: seq<RecipientPlan>)
    requires i < |events| && PlansFor(events, plans)
    ensures forall client | client in Affected(events[i]) :: exists k | 0 <= k < |plans| :: plans[k].clientId == client
  {
    forall client | client in Affected(events[i])
      ensures exists k | 0 <= k < |plans| :: plans[k].clientId == client
    {
      MentionsContain(events, i, client);
      var k :| 0 <= k < |Recipients(events)| && Recipients(events)[k] == client;
      assert plans[k].clientId == client;
    }
  }

  lemma {:induction false} MentionsContain(events: seq<Event>, i: nat, client: u64)
    requires i < |events| && client in Affected(events[i])
    ensures client in Mentions(events)
    decreases |events|
  {
    if i < |events| - 1 {
      MentionsContain(events[..|events| - 1], i, client);
    }
  }

  // ----- How many private events one batch becomes

  function Weight(e: Event): nat {
    if e.Trade? then 2 else 1
  }

  function TotalWeight(events: seq<Event>): nat {
    if events == [] then 0 else TotalWeight(events[..|events| - 1]) + Weight(events[|events| - 1])
  }

  function EventCount(results: seq<RecipientResult>): nat {
    if results == [] then 0
    else EventCount(results[..|results| - 1]) + |results[|results| - 1].privateResult|
  }

  function ViewedBy(events: seq<Event>, clients: seq<u64>): nat {
    if clients == [] then 0
    else ViewedBy(events, clients[..|clients| - 1]) + |View(events, clients[|clients| - 1])|
  }

  function SeenBy(e: Event, clients: seq<u64>): nat {
    if clients == [] then 0 else SeenBy(e, clients[..|clients| - 1]) + Increment(e, clients[|clients| - 1])
  }

  ghost predicate NoRepeats(clients: seq<u64>) {
    forall i, j :: 0 <= i < j < |clients| ==> clients[i] != clients[j]
  }

  lemma {:induction false} SeenByEach(e: Event, clients: seq<u64>)
    requires NoRepeats(clients)
    ensures SeenBy(e, clients) ==
            if e.Trade? then
              (if e.makerClientId in clients then 1 else 0) + (if e.takerClientId in clients then 1 else 0)
            else if e.clientId in clients then 1 else 0
    decreases |clients|
  {
    if clients != [] {
      SeenByEach(e, clients[..|clients| - 1]);
      assert clients == clients[..|clients| - 1] + [clients[|clients| - 1]];
    }
  }

  lemma {:induction false} ViewedBySnoc(events: seq<Event>, e: Event, clients: seq<u64>)
    ensures ViewedBy(events + [e], clients) == ViewedBy(events, clients) + SeenBy(e, clients)
    decreases |clients|
  {
    if clients != [] {
      ViewedBySnoc(events, e, clients[..|clients| - 1]);
      assert (events + [e])[..|events|] == events;
    }
  }

  lemma {:induction false} NobodySees(clients: seq<u64>)
    ensures ViewedBy([], clients) == 0
    decreases |clients|
  {
    if clients != [] {
      NobodySees(clients[..|clients| - 1]);
    }
  }

  lemma {:induction false} ViewedByAll(events: seq<Event>, clients: seq<u64>)
    requires NoRepeats(clients) && forall c | c in Mentions(events) :: c in clients
    ensures ViewedBy(events, clients) == TotalWeight(events)
    decreases |events|
  {
    if events == [] {
      NobodySees(clients);
    } else {
      var front, e := events[..|events| - 1], events[|events| - 1];
      assert events == front + [e];
      ViewedByAll(front, clients);
      ViewedBySnoc(front, e, clients);
      SeenByEach(e, clients);
      assert forall c | c in Affected(e) :: c in Mentions(events);
      if e.Trade? {
        assert Increment(e, e.makerClientId) > 0 && Increment(e, e.takerClientId) > 0;
      } else {
        assert Increment(e, e.clientId) > 0;
      }
    }
  }

  lemma {:induction false} CountIsViewed(events: seq<Event>, results: seq<RecipientResult>, clients: seq<u64>)
    requires |results| == |clients|
    requires forall k | 0 <= k < |results| :: results[k].privateResult == View(events, clients[k])
    ensures EventCount(results) == ViewedBy(events, clients)
    decreases |results|
  {
    if results != [] {
      CountIsViewed(events, results[..|results| - 1], clients[..|results| - 1]);
    }
  }

  lemma {:induction false} WeightIsBounded(events: seq<Event>)
    ensures |events| <= TotalWeight(events) <= 2 * |events|
    decreases |events|
  {
    if events != [] {
      WeightIsBounded(events[..|events| - 1]);
    }
  }

  lemma FanOutViews(batch: Batch, results: seq<RecipientResult>)
    requires IsFanOut(batch, results)
    ensures |results| == |Recipients(batch.events)|
    ensures forall k | 0 <= k < |results| :: results[k].privateResult == View(batch.events, Recipients(batch.events)[k])
  {
    hide View, Recipients;
  }

  lemma NoEvents()
    ensures EventCount([]) == 0
  {
  }

  /** Every trade is told twice and everything else once, so twice the event limit always holds one batch. */
  lemma FanOutSize(batch: Batch, results: seq<RecipientResult>)
    requires IsFanOut(batch, results)
    ensures EventCount(results) == TotalWeight(batch.events)
    ensures |batch.events| <= EventCount(results) <= 2 * |batch.events|
    ensures batch.events != [] ==> results != []
  {
    FanOutViews(batch, results);
    hide IsFanOut, View, ViewedBy, TotalWeight, EventCount;
    ViewedByAll(batch.events, Recipients(batch.events));
    CountIsViewed(batch.events, results, Recipients(batch.events));
    WeightIsBounded(batch.events);
    NoEvents();
  }

  /** Only the client that sent the command can tell from its result which command it was. */
  lemma OnlyOriginatorIsCorrelated(batch: Batch, results: seq<RecipientResult>, k: nat)
    requires IsFanOut(batch, results) && k < |results|
    ensures results[k].correlation.Some? <==> results[k].recipient == batch.correlation.clientId
    ensures results[k].correlation.Some? ==> results[k].correlation.value == batch.correlation
  {
    assert Projection(batch, results[k].recipient) == Some(results[k]);
  }

  // ----- The public projection

  function PublicView(e: Event): PublicTrade
    requires e.Trade?
  {
    PublicTrade(e.eventId, e.instrumentId, e.executionPrice, e.executionQuantity, e.takerSide)
  }

  function PublicTrades(events: seq<Event>): (trades: seq<PublicTrade>)
    ensures |trades| <= |events|
  {
    if events == [] then []
    else
      var e := events[|events| - 1];
      PublicTrades(events[..|events| - 1]) + (if e.Trade? then [PublicView(e)] else [])
  }

  method ProjectPublicTrades(batch: Batch) returns (trades: seq<PublicTrade>)
    ensures trades == PublicTrades(batch.events)
  {
    var events := batch.events;
    trades := [];
    for i := 0 to |events|
      invariant trades == PublicTrades(events[..i])
    {
      assert events[..i + 1][..i] == events[..i];
      if events[i].Trade? {
        trades := trades + [PublicView(events[i])];
      }
    }
    assert events[..|events|] == events;
  }
}
