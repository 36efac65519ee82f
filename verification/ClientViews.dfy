/** What the fan-out of a result tells each client, and the public, about the orders that traded. */
module ClientViews {
  import opened LittleEndian
  import opened Domain
  import opened PriceTime
  import opened PriceTimeTheorems
  import opened CommandOutcomes
  import opened ResultProjection

  /** How often a client is concerned by these events: once by each, twice by a trade with itself. */
  function Concerns(events: seq<Event>, client: u64): nat {
    if events == [] then 0
    else
      var e := events[|events| - 1];
      Concerns(events[..|events| - 1], client) +
      (if e.Trade? then (if e.makerClientId == client then 1 else 0) + (if e.takerClientId == client then 1 else 0)
       else if e.clientId == client then 1 else 0)
  }

  /** A trade as one of its two sides is told about it. */
  ghost predicate TellsTrade(told: PrivateEvent, e: Event, role: TradeRole, side: Side, orderId: u64, remaining: nat) {
    && told.PrivateTrade? && e.Trade?
    && told.eventId == e.eventId && told.instrumentId == e.instrumentId
    && told.executionPrice == e.executionPrice && told.executionQuantity == e.executionQuantity
    && told.role == role && told.side == side && told.orderId == orderId && told.remainingQuantity == remaining
  }

  /** What a list of private events says about event `e` from position `at` on, if it concerns the client. */
  ghost predicate TellsEvent(told: seq<PrivateEvent>, at: nat, e: Event, client: u64) {
    if e.Trade? then
      && (e.makerClientId == client ==>
            at < |told| && TellsTrade(told[at], e, Maker, if e.takerSide.Buy? then Sell else Buy, e.makerOrderId,
                                      e.makerRemaining))
      && (e.takerClientId == client ==>
            var next := at + if e.makerClientId == client then 1 else 0;
            next < |told| && TellsTrade(told[next], e, Taker, e.takerSide, e.takerOrderId, e.takerRemaining))
    else e.clientId == client ==> at < |told| && told[at] == Forwarded(e)
  }

  lemma {:induction false} ViewCounts(events: seq<Event>, client: u64)
    ensures |View(events, client)| == Concerns(events, client)
    decreases |events|
  {
    if events != [] {
      ViewCounts(events[..|events| - 1], client);
    }
  }

  lemma TellsMore(told: seq<PrivateEvent>, more: seq<PrivateEvent>, at: nat, e: Event, client: u64)
    requires TellsEvent(told, at, e, client)
    ensures TellsEvent(told + more, at, e, client)
  {
    hide TellsTrade;
  }

  /** The view of one more event tells that event behind all others. */
  lemma TellsLast(told: seq<PrivateEvent>, e: Event, client: u64)
    ensures TellsEvent(told + EventView(e, client), |told|, e, client)
  {
  }

  lemma {:induction false} ViewTells(events: seq<Event>, client: u64, i: nat)
    requires i < |events|
    ensures TellsEvent(View(events, client), Concerns(events[..i], client), events[i], client)
    decreases |events|
  {
    hide TellsEvent, EventView, Concerns;
    var front, e := events[..|events| - 1], events[|events| - 1];
    if i < |front| {
      ViewTells(front, client, i);
      assert events[..i] == front[..i];
      TellsMore(View(front, client), EventView(e, client), Concerns(events[..i], client), events[i], client);
    } else {
      ViewCounts(front, client);
      TellsLast(View(front, client), e, client);
    }
  }

  /**
   * A fan-out tells each client every event that concerns it, in the order of the result, and nothing else: a trade from
   * the side of its own order, anything else unchanged. Clients no event concerns are not in it.
   */
  lemma FanOutTells(batch: Batch, results: seq<RecipientResult>)
    requires IsFanOut(batch, results)
    ensures forall client ::
              Concerns(batch.events, client) > 0 <==> exists r :: 0 <= r < |results| && results[r].recipient == client
    ensures forall r | 0 <= r < |results| ::
              |results[r].privateResult| == Concerns(batch.events, results[r].recipient)
    ensures forall r, i | 0 <= r < |results| && 0 <= i < |batch.events| ::
              TellsEvent(results[r].privateResult, Concerns(batch.events[..i], results[r].recipient), batch.events[i],
                         results[r].recipient)
  {
    hide View, Recipients, Concerns, TellsEvent;
    forall r | 0 <= r < |results|
      ensures results[r].privateResult == View(batch.events, results[r].recipient) != []
    {
      assert Projection(batch, results[r].recipient) == Some(results[r]);
    }
    forall client
      ensures |View(batch.events, client)| == Concerns(batch.events, client)
    {
      ViewCounts(batch.events, client);
    }
    forall client
      ensures Concerns(batch.events, client) > 0 <==> exists r :: 0 <= r < |results| && results[r].recipient == client
    {
      assert Projection(batch, client).Some? <==> View(batch.events, client) != [];
    }
    forall r, i | 0 <= r < |results| && 0 <= i < |batch.events|
      ensures TellsEvent(results[r].privateResult, Concerns(batch.events[..i], results[r].recipient), batch.events[i],
                         results[r].recipient)
    {
      ViewTells(batch.events, results[r].recipient, i);
    }
  }

  // ----- The order of the fan-out

  /** The first event that concerns the client. */
  function FirstConcern(events: seq<Event>, client: u64): nat {
    if events == [] then 0
    else
      var front := events[..|events| - 1];
      if Concerns(front, client) > 0 then FirstConcern(front, client) else |front|
  }

  /** The client concerned first comes first; of the two sides of one trade, the maker. */
  ghost predicate ComesFirst(events: seq<Event>, client: u64, other: u64) {
    var i, j := FirstConcern(events, client), FirstConcern(events, other);
    || i < j
    || (i == j < |events| && events[i].Trade? && events[i].makerClientId == client && events[i].takerClientId == other)
  }

  lemma {:induction false} ConcernedAreRecipients(events: seq<Event>, client: u64)
    ensures client in Recipients(events) <==> Concerns(events, client) > 0
    ensures Concerns(events, client) > 0 ==> FirstConcern(events, client) < |events|
    decreases |events|
  {
    hide Distinct, View;
    MentionedIffViewed(events, client);
    ViewCounts(events, client);
    if events != [] {
      ConcernedAreRecipients(events[..|events| - 1], client);
    }
  }

  /** One more event adds the clients it is the first to concern, the maker before the taker. */
  lemma RecipientsGrow(front: seq<Event>, e: Event)
    ensures var known := Recipients(front);
            var maker, taker := if e.Trade? then e.makerClientId else e.clientId,
                                if e.Trade? then e.takerClientId else e.clientId;
            var first := if maker in known then [] else [maker];
            var second := if taker in known || taker == maker then [] else [taker];
            Recipients(front + [e]) == known + first + second
  {
    hide Distinct;
    var mentions, affected := Mentions(front), Affected(e);
    assert (front + [e])[..|front|] == front;
    DistinctSnoc(mentions, affected[0]);
    assert mentions + affected[..1] == mentions + [affected[0]];
    if |affected| == 2 {
      DistinctSnoc(mentions + [affected[0]], affected[1]);
      assert mentions + affected == mentions + [affected[0]] + [affected[1]];
    } else {
      assert mentions + affected == mentions + [affected[0]];
    }
  }

  lemma {:induction false} RecipientsInOrder(events: seq<Event>, j: nat, k: nat)
    requires j < k < |Recipients(events)|
    ensures ComesFirst(events, Recipients(events)[j], Recipients(events)[k])
    decreases |events|
  {
    hide Recipients, Concerns, Affected;
    if events == [] {
      assert false by { NobodyIsTold(); }
    }
    var front, e := events[..|events| - 1], events[|events| - 1];
    assert events == front + [e];
    RecipientsGrow(front, e);
    var known, all := Recipients(front), Recipients(events);
    ConcernedAreRecipients(front, all[j]);
    ConcernedAreRecipients(front, all[k]);
    if k < |known| {
      RecipientsInOrder(front, j, k);
    } else {
      RecipientsDiffer(front, e, k);
    }
  }

  lemma NobodyIsTold()
    ensures Recipients([]) == []
  {
  }

  lemma RecipientsDiffer(front: seq<Event>, e: Event, k: nat)
    requires |Recipients(front)| <= k < |Recipients(front + [e])|
    ensures Recipients(front + [e])[k] !in Recipients(front)
  {
    RecipientsGrow(front, e);
    hide Recipients;
  }

  /** The fan-out lists its clients in that order. */
  lemma FanOutInOrder(batch: Batch, results: seq<RecipientResult>, j: nat, k: nat)
    requires IsFanOut(batch, results) && j < k < |results|
    ensures ComesFirst(batch.events, results[j].recipient, results[k].recipient)
  {
    hide Recipients, Projection, ComesFirst;
    RecipientsInOrder(batch.events, j, k);
  }

  // ----- The public

  function TradeCount(events: seq<Event>): nat {
    if events == [] then 0
    else TradeCount(events[..|events| - 1]) + if events[|events| - 1].Trade? then 1 else 0
  }

  /** The public is told every trade, in order, without the clients and the orders, and nothing else. */
  lemma {:induction false} PublicIsTold(events: seq<Event>)
    ensures |PublicTrades(events)| == TradeCount(events)
    ensures forall i | 0 <= i < |events| && events[i].Trade? ::
              var at := TradeCount(events[..i]);
              && at < |PublicTrades(events)|
              && PublicTrades(events)[at].eventId == events[i].eventId
              && PublicTrades(events)[at].instrumentId == events[i].instrumentId
              && PublicTrades(events)[at].executionPrice == events[i].executionPrice
              && PublicTrades(events)[at].executionQuantity == events[i].executionQuantity
              && PublicTrades(events)[at].aggressorSide == events[i].takerSide
    decreases |events|
  {
    if events != [] {
      var front := events[..|events| - 1];
      PublicIsTold(front);
      assert forall i | 0 <= i < |front| :: events[..i] == front[..i] && events[i] == front[i];
      assert events[..|front|] == front;
    }
  }

  // ----- A trade of the matcher, as its two clients see it

  /** Some entry of the fan-out is this client's, and says at this place what a side of the trade is told. */
  ghost predicate IsTold(results: seq<RecipientResult>, client: u64, at: nat, e: Event, role: TradeRole, side: Side,
                         orderId: u64, remaining: nat)
  {
    exists r :: 0 <= r < |results| && results[r].recipient == client && at < |results[r].privateResult| &&
                TellsTrade(results[r].privateResult[at], e, role, side, orderId, remaining)
  }

  lemma {:induction false} ConcernedByOne(events: seq<Event>, i: nat, client: u64)
    requires i < |events|
    requires if events[i].Trade? then events[i].makerClientId == client || events[i].takerClientId == client
             else events[i].clientId == client
    ensures Concerns(events, client) > 0
    decreases |events|
  {
    if i < |events| - 1 {
      ConcernedByOne(events[..|events| - 1], i, client);
    }
  }

  /** Both sides of a trade find it in their own entry. */
  lemma BothSidesAreTold(batch: Batch, results: seq<RecipientResult>, i: nat)
    requires IsFanOut(batch, results) && i < |batch.events| && batch.events[i].Trade?
    ensures var e := batch.events[i];
            var maker, taker := Concerns(batch.events[..i], e.makerClientId), Concerns(batch.events[..i], e.takerClientId);
            && IsTold(results, e.makerClientId, maker, e, Maker, if e.takerSide.Buy? then Sell else Buy, e.makerOrderId,
                      e.makerRemaining)
            && IsTold(results, e.takerClientId, taker + (if e.makerClientId == e.takerClientId then 1 else 0), e, Taker,
                      e.takerSide, e.takerOrderId, e.takerRemaining)
  {
    hide IsFanOut, Concerns, TellsTrade;
    var e := batch.events[i];
    FanOutTells(batch, results);
    ConcernedByOne(batch.events, i, e.makerClientId);
    ConcernedByOne(batch.events, i, e.takerClientId);
    var r :| 0 <= r < |results| && results[r].recipient == e.makerClientId;
    var q :| 0 <= q < |results| && results[q].recipient == e.takerClientId;
    assert TellsEvent(results[r].privateResult, Concerns(batch.events[..i], e.makerClientId), e, e.makerClientId);
    assert TellsEvent(results[q].privateResult, Concerns(batch.events[..i], e.takerClientId), e, e.takerClientId);
  }

  /** What is left of a maker is what its order in the book holds afterwards. */
  lemma MakerIsLeft(b: Book, after: Book, trades: seq<Event>, k: nat, other: u64)
    requires BookAfter(b, after - {other}, trades) && k < |trades| && other !in b
    ensures trades[k].Trade? && trades[k].makerOrderId in b
    ensures trades[k].makerRemaining ==
            if trades[k].makerOrderId in after then after[trades[k].makerOrderId].quantity else 0
  {
    var id := trades[k].makerOrderId;
    assert id in after <==> id in after - {other};
  }

  /**
   * Trade `k` of a new order over the resting orders `b`: the owner of the resting order is told of its own side, its own
   * order and what is left of it in the book; the sender of the command of its side, its order and what it still wants.
   */
  lemma TradeIsTold(run: u64, b: Book, m: Message, queue: seq<u64>, results: seq<RecipientResult>, k: nat)
    returns (trades: seq<Event>)
    requires Positive(b) && IsNewOrder(m) && IsCrossingQueue(b, m, queue) && Apply(run, b, m).Done?
    requires Apply(run, b, m).batch.result.Applied? && IsFanOut(Apply(run, b, m).batch, results)
    ensures forall i | 0 <= i < |queue| :: queue[i] in b
    ensures |trades| <= |queue| && trades <= Apply(run, b, m).batch.events
    ensures k < |trades| ==>
              var after, maker, events := Apply(run, b, m).book, b[queue[k]], Apply(run, b, m).batch.events;
              var earlier := Traded(trades[..k + 1]);
              && IsTold(results, maker.owner, Concerns(events[..k], maker.owner), trades[k], Maker, maker.side, queue[k],
                        if queue[k] in after then after[queue[k]].quantity else 0)
              && earlier <= m.quantity
              && IsTold(results, m.clientId,
                        Concerns(events[..k], m.clientId) + (if maker.owner == m.clientId then 1 else 0),
                        trades[k], Taker, if m.kind.BUY? then Buy else Sell, m.orderId, m.quantity - earlier)
  {
    hide IsCrossingQueue, IsFanOut, Apply, Concerns, JustEnough, BookAfter, IsTold;
    trades := NewOrderOutcome(run, b, m, queue);
    if k < |trades| {
      var after := Apply(run, b, m);
      assert IsTrade(run, b, m, trades[k], k, m.quantity - Traded(trades[..k])) && after.batch.events[k] == trades[k];
      BothSidesAreTold(after.batch, results, k);
      MakerIsLeft(b, after.book, trades, k, m.orderId);
      TradedSnoc(trades, k);
    }
  }

  lemma {:induction false} TradedSnoc(trades: seq<Event>, k: nat)
    requires k < |trades| && forall i | 0 <= i < |trades| :: trades[i].Trade?
    ensures Traded(trades[..k + 1]) == Traded(trades[..k]) + trades[k].executionQuantity
    decreases k
  {
    assert trades[..k + 1] == trades[..k] + [trades[k]];
    TotalsOfAppend(trades[..k], trades[k]);
  }
}
