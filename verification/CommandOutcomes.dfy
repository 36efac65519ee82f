/**
 * What one command does, said of the message and the orders that rest: which orders are made to trade, what every event
 * carries, what is refused, and what the book holds afterwards.
 */
module CommandOutcomes {
  import opened LittleEndian
  import opened Domain
  import opened PriceTime
  import opened PriceTimeTheorems

  // ----- Quantities along the priority queue

  /** What the orders of `ids` hold together. */
  function Held(b: Book, ids: seq<u64>): nat
    requires forall k | 0 <= k < |ids| :: ids[k] in b
  {
    if ids == [] then 0 else b[ids[0]].quantity + Held(b, ids[1..])
  }

  lemma {:induction false} HeldConcat(b: Book, ids: seq<u64>, more: seq<u64>)
    requires forall k | 0 <= k < |ids| :: ids[k] in b
    requires forall k | 0 <= k < |more| :: more[k] in b
    ensures forall k | 0 <= k < |ids + more| :: (ids + more)[k] in b
    ensures Held(b, ids + more) == Held(b, ids) + Held(b, more)
  {
    if ids == [] {
      assert ids + more == more;
    } else {
      assert (ids + more)[1..] == ids[1..] + more;
      HeldConcat(b, ids[1..], more);
    }
  }

  lemma HeldPrefix(b: Book, ids: seq<u64>, j: nat, k: nat)
    requires forall i | 0 <= i < |ids| :: ids[i] in b
    requires j <= k <= |ids|
    ensures Held(b, ids[..j]) <= Held(b, ids[..k])
  {
    assert ids[..k] == ids[..j] + ids[j..k];
    HeldConcat(b, ids[..j], ids[j..k]);
  }

  /** Taking an order out of the book does not change what the others hold. */
  lemma {:induction false} HeldWithout(b: Book, ids: seq<u64>, id: u64)
    requires forall k | 0 <= k < |ids| :: ids[k] in b && ids[k] != id
    ensures Held(b - {id}, ids) == Held(b, ids)
  {
    if ids != [] {
      HeldWithout(b, ids[1..], id);
    }
  }

  /** The crossing orders, best first. */
  ghost predicate IsCrossingQueue(b: Book, m: Message, queue: seq<u64>) {
    IsPriorityQueue(Crossing(b, m), m.instrumentId, MakerSide(m), queue)
  }

  lemma CrossingQueueExists(b: Book, m: Message) returns (queue: seq<u64>)
    ensures IsCrossingQueue(b, m, queue)
  {
    queue := PriorityQueueExists(Crossing(b, m), m.instrumentId, MakerSide(m));
  }

  /** What a list must satisfy to be that queue, in terms of the fields of the message and the orders. */
  lemma CrossingQueueIs(b: Book, m: Message, queue: seq<u64>)
    requires IsNewOrder(m)
    ensures IsCrossingQueue(b, m, queue) <==>
            && (forall id :: id in queue <==>
                  && id in b && b[id].instrument == m.instrumentId
                  && (if m.kind.BUY? then b[id].side == Sell && b[id].price <= m.price
                      else b[id].side == Buy && b[id].price >= m.price))
            && (forall j, k | 0 <= j < k < |queue| ::
                  && queue[j] in b && queue[k] in b
                  && (|| (b[queue[j]].price == b[queue[k]].price && queue[j] < queue[k])
                      || (if m.kind.BUY? then b[queue[j]].price < b[queue[k]].price
                          else b[queue[j]].price > b[queue[k]].price)))
  {
    var crossing := Crossing(b, m);
    assert forall id :: id in crossing <==>
        && id in b && b[id].instrument == m.instrumentId
        && (if m.kind.BUY? then b[id].side == Sell && b[id].price <= m.price
            else b[id].side == Buy && b[id].price >= m.price);
    assert forall id :: Competes(crossing, m.instrumentId, MakerSide(m), id) <==> id in crossing;
    if forall id :: id in queue <==> id in crossing {
      assert forall k | 0 <= k < |queue| :: queue[k] in queue;
    }
  }

  // ----- The trades of a new order

  /**
   * Trade `k` of an order that wants `wanted` when its event `index` is made: everything its maker holds, or what is
   * still wanted if that is less.
   */
  ghost predicate IsTrade(run: u64, b: Book, m: Message, e: Event, index: nat, wanted: int) {
    && e.Trade? && e.makerOrderId in b
    && var maker := b[e.makerOrderId];
       && e.eventId == EventId(m.sequence, index, run)
       && e.instrumentId == m.instrumentId == maker.instrument
       && e.makerClientId == maker.owner && e.takerOrderId == m.orderId && e.takerClientId == m.clientId
       && e.takerSide == (if m.kind.BUY? then Buy else Sell)
       && maker.side == (if m.kind.BUY? then Sell else Buy)
       && e.executionPrice == maker.price
       && e.executionQuantity == (if wanted <= maker.quantity then wanted else maker.quantity)
       && e.makerRemaining == maker.quantity - e.executionQuantity
       && e.takerRemaining == wanted - e.executionQuantity
  }

  /** The trades take the queue from its front, each in turn what the ones before it have left to be taken. */
  ghost predicate AreTrades(run: u64, b: Book, m: Message, queue: seq<u64>, trades: seq<Event>, index: nat, wanted: nat) {
    && |trades| <= |queue|
    && (forall k | 0 <= k < |trades| ::
          && IsTrade(run, b, m, trades[k], index + k, wanted - Traded(trades[..k]))
          && trades[k].makerOrderId == queue[k])
  }

  /** Just as many orders trade as it takes to hold the quantity wanted, or all of them. */
  ghost predicate JustEnough(b: Book, queue: seq<u64>, count: nat, wanted: nat)
    requires forall k | 0 <= k < |queue| :: queue[k] in b
  {
    && count <= |queue|
    && (count > 0 ==> Held(b, queue[..count - 1]) < wanted)
    && (count < |queue| ==> wanted <= Held(b, queue[..count]))
  }

  /** The makers are left with what their trades say, and every other order is as it was. */
  ghost predicate BookAfter(b: Book, after: Book, trades: seq<Event>) {
    && (forall k | 0 <= k < |trades| :: trades[k].Trade? && trades[k].makerOrderId in b)
    && (forall id :: id in after ==> id in b)
    && (forall id | id in b && (forall k | 0 <= k < |trades| :: trades[k].makerOrderId != id) ::
          id in after && after[id] == b[id])
    && (forall k | 0 <= k < |trades| ::
          var id, left := trades[k].makerOrderId, trades[k].makerRemaining;
          && (id in after <==> left > 0)
          && (left > 0 ==> after[id] == b[id].(quantity := left)))
  }

  lemma QueueHead(b: Book, m: Message, queue: seq<u64>)
    requires IsCrossingQueue(b, m, queue)
    ensures queue != [] ==> Matches(b, m, queue[0])
    ensures queue == [] ==> !exists id :: Matches(b, m, id)
    ensures forall k | 0 <= k < |queue| :: queue[k] in b
  {
    var crossing := Crossing(b, m);
    forall k | 0 <= k < |queue|
      ensures queue[k] in b
    {
      assert Competes(crossing, m.instrumentId, MakerSide(m), queue[k]);
    }
    if queue == [] {
      forall id
        ensures !Matches(b, m, id)
      {
        assert !Competes(crossing, m.instrumentId, MakerSide(m), id);
      }
    } else {
      var best := queue[0];
      assert Competes(crossing, m.instrumentId, MakerSide(m), best);
      forall other | Competes(b, m.instrumentId, MakerSide(m), other) && other != best
        ensures Outranks(MakerSide(m), b[best].price, best, b[other].price, other)
      {
        if Crosses(m, b[other].price) {
          assert Competes(crossing, m.instrumentId, MakerSide(m), other);
          assert other in queue;
        }
      }
    }
  }

  /** Once the best order is used up, the rest of the queue is the queue. */
  lemma QueueRest(b: Book, m: Message, queue: seq<u64>)
    requires IsCrossingQueue(b, m, queue) && queue != []
    ensures IsCrossingQueue(b - {queue[0]}, m, queue[1..])
    ensures forall k | 0 < k < |queue| :: queue[k] != queue[0]
  {
    hide Crossing;
    QueueHead(b, m, queue);
    CrossingAfterTrade(b, m, queue[0], b[queue[0]].quantity);
    QueueTail(Crossing(b, m), m.instrumentId, MakerSide(m), queue);
  }

  /** What one step of the fill leaves to be explained. */
  lemma FillTakesHead(run: u64, b: Book, m: Message, queue: seq<u64>, remaining: u64, index: nat)
    requires Positive(b) && IsNewOrder(m) && IsCrossingQueue(b, m, queue) && queue != [] && remaining > 0
    ensures queue[0] in b
    ensures var quantity, f := Min(remaining, b[queue[0]].quantity), Fill(run, b, m, remaining, index);
            && f.trades != [] && IsTrade(run, b, m, f.trades[0], index, remaining)
            && f.trades[0].makerOrderId == queue[0] && f.trades[0].executionQuantity == quantity
            && (quantity < b[queue[0]].quantity ==>
                  |f.trades| == 1 && quantity == remaining && f.book == Reduce(b, queue[0], quantity))
            && (quantity == b[queue[0]].quantity ==>
                  var rest := Fill(run, b - {queue[0]}, m, remaining - quantity, index + 1);
                  f.trades[1..] == rest.trades && f.book == rest.book)
  {
    hide Fill;
    QueueHead(b, m, queue);
    var id := queue[0];
    var quantity := Min(remaining, b[id].quantity);
    FillStep(run, b, m, remaining, index, id);
    if quantity < b[id].quantity {
      FillStop(run, Reduce(b, id, quantity), m, 0, index + 1);
    }
  }

  lemma {:induction false} FillTrades(run: u64, b: Book, m: Message, queue: seq<u64>, remaining: u64, index: nat)
    requires Positive(b) && IsNewOrder(m) && IsCrossingQueue(b, m, queue)
    ensures AreTrades(run, b, m, queue, Fill(run, b, m, remaining, index).trades, index, remaining)
    decreases |queue|
  {
    hide Fill, IsTrade, IsCrossingQueue;
    QueueHead(b, m, queue);
    if remaining > 0 && queue != [] {
      var id := queue[0];
      var quantity := Min(remaining, b[id].quantity);
      FillTakesHead(run, b, m, queue, remaining, index);
      var trades := Fill(run, b, m, remaining, index).trades;
      if quantity == b[id].quantity {
        QueueRest(b, m, queue);
        FillTrades(run, b - {id}, m, queue[1..], remaining - quantity, index + 1);
        TradesAfterFirst(run, b, m, queue, trades, index, remaining);
      }
    } else {
      FillStop(run, b, m, remaining, index);
    }
  }

  lemma TradesAfterFirst(run: u64, b: Book, m: Message, queue: seq<u64>, trades: seq<Event>, index: nat, wanted: nat)
    requires queue != [] && trades != [] && queue[0] in b
    requires IsTrade(run, b, m, trades[0], index, wanted) && trades[0].makerOrderId == queue[0]
    requires trades[0].executionQuantity <= wanted
    requires AreTrades(run, b - {queue[0]}, m, queue[1..], trades[1..], index + 1, wanted - trades[0].executionQuantity)
    ensures AreTrades(run, b, m, queue, trades, index, wanted)
  {
    var rest, left := trades[1..], wanted - trades[0].executionQuantity;
    forall k | 0 < k < |trades|
      ensures IsTrade(run, b, m, trades[k], index + k, wanted - Traded(trades[..k]))
      ensures trades[k].makerOrderId == queue[k]
    {
      assert trades[k] == rest[k - 1] && queue[k] == queue[1..][k - 1];
      assert trades[..k][1..] == rest[..k - 1];
      assert IsTrade(run, b - {queue[0]}, m, rest[k - 1], index + 1 + (k - 1), left - Traded(rest[..k - 1]));
    }
  }

  lemma {:induction false} FillCount(run: u64, b: Book, m: Message, queue: seq<u64>, remaining: u64, index: nat)
    requires Positive(b) && IsNewOrder(m) && IsCrossingQueue(b, m, queue)
    ensures forall k | 0 <= k < |queue| :: queue[k] in b
    ensures JustEnough(b, queue, |Fill(run, b, m, remaining, index).trades|, remaining)
    decreases |queue|
  {
    hide Fill, IsCrossingQueue, IsTrade;
    QueueHead(b, m, queue);
    if remaining > 0 && queue != [] {
      var id := queue[0];
      var quantity := Min(remaining, b[id].quantity);
      FillTakesHead(run, b, m, queue, remaining, index);
      var count := |Fill(run, b, m, remaining, index).trades|;
      assert Held(b, queue[..1]) == b[id].quantity + Held(b, queue[..1][1..]);
      if quantity == b[id].quantity {
        QueueRest(b, m, queue);
        FillCount(run, b - {id}, m, queue[1..], remaining - quantity, index + 1);
        if count > 1 {
          HeldAfterFirst(b, queue, count - 1);
        }
        HeldAfterFirst(b, queue, count);
      }
    } else {
      FillStop(run, b, m, remaining, index);
    }
  }

  lemma HeldAfterFirst(b: Book, queue: seq<u64>, k: nat)
    requires 0 < k <= |queue| && (forall i | 0 <= i < |queue| :: queue[i] in b)
    requires forall i | 0 < i < |queue| :: queue[i] != queue[0]
    ensures Held(b, queue[..k]) == b[queue[0]].quantity + Held(b - {queue[0]}, queue[1..][..k - 1])
  {
    assert queue[..k][1..] == queue[1..][..k - 1];
    HeldWithout(b, queue[1..][..k - 1], queue[0]);
  }

  lemma {:induction false} FillBook(run: u64, b: Book, m: Message, queue: seq<u64>, remaining: u64, index: nat)
    requires Positive(b) && IsNewOrder(m) && IsCrossingQueue(b, m, queue)
    ensures var f := Fill(run, b, m, remaining, index); BookAfter(b, f.book, f.trades)
    decreases |queue|
  {
    hide Fill, IsCrossingQueue;
    QueueHead(b, m, queue);
    if remaining > 0 && queue != [] {
      var id := queue[0];
      var quantity := Min(remaining, b[id].quantity);
      FillTakesHead(run, b, m, queue, remaining, index);
      if quantity == b[id].quantity {
        QueueRest(b, m, queue);
        FillBook(run, b - {id}, m, queue[1..], remaining - quantity, index + 1);
        var f := Fill(run, b, m, remaining, index);
        BookAfterFirst(b, f.book, f.trades);
      }
    } else {
      FillStop(run, b, m, remaining, index);
    }
  }

  lemma BookAfterFirst(b: Book, after: Book, trades: seq<Event>)
    requires trades != [] && trades[0].Trade? && trades[0].makerOrderId in b && trades[0].makerRemaining == 0
    requires BookAfter(b - {trades[0].makerOrderId}, after, trades[1..])
    ensures BookAfter(b, after, trades)
  {
    var smaller, rest := b - {trades[0].makerOrderId}, trades[1..];
    assert forall k | 0 < k < |trades| :: trades[k] == rest[k - 1];
    forall id | id in b && (forall k | 0 <= k < |trades| :: trades[k].makerOrderId != id)
      ensures id in after && after[id] == b[id]
    {
      assert forall k | 0 <= k < |rest| :: rest[k].makerOrderId != id;
    }
    forall k | 0 <= k < |trades|
      ensures trades[k].Trade? && trades[k].makerOrderId in b
      ensures var id, left := trades[k].makerOrderId, trades[k].makerRemaining;
              (id in after <==> left > 0) && (left > 0 ==> after[id] == b[id].(quantity := left))
    {
      if k > 0 {
        assert rest[k - 1].makerOrderId in smaller;
      }
    }
  }

  // ----- A new order, from the message and the resting orders alone

  /** What the crossing orders cannot fill. */
  ghost function Unfilled(b: Book, m: Message): nat {
    var available := Quantity(Crossing(b, m));
    if m.quantity <= available then 0 else m.quantity - available
  }

  /** The trades and the event for what is left would be more than one command may produce. */
  ghost predicate TooManyEvents(b: Book, m: Message, queue: seq<u64>)
    requires forall k | 0 <= k < |queue| :: queue[k] in b
  {
    |queue| >= MAX_EVENTS_PER_COMMAND && Held(b, queue[..MAX_EVENTS_PER_COMMAND]) < m.quantity
  }

  /** What is left of a good-till-cancel order would not fit the level it joins. */
  ghost predicate LevelOverflows(b: Book, m: Message) {
    var configuration := FindByIdentity(m.instrumentId, m.configurationVersion);
    && m.tif == GTC && Unfilled(b, m) > 0 && configuration.Some?
    && Aggregate(b, m.instrumentId, if m.kind.BUY? then Buy else Sell, m.price) + Unfilled(b, m)
         > configuration.value.maxPriceLevelAggregate
  }

  /** The event behind the trades: none, the cancelled remainder, or the order that rests. */
  ghost function Ending(run: u64, m: Message, trades: nat, unfilled: u64): seq<Event> {
    var id := EventId(m.sequence, trades, run);
    if unfilled == 0 then []
    else if m.tif == IOC then [OrderCancelled(id, m.orderId, m.clientId, m.instrumentId, unfilled, IocRemainder)]
    else [OrderRested(id, m.orderId, m.clientId, m.instrumentId, if m.kind.BUY? then Buy else Sell, m.price, unfilled)]
  }

  lemma CountDecides(b: Book, m: Message, queue: seq<u64>, count: nat, unfilled: nat)
    requires forall k | 0 <= k < |queue| :: queue[k] in b
    requires JustEnough(b, queue, count, m.quantity)
    requires unfilled > 0 ==> count == |queue| && Held(b, queue) < m.quantity
    requires unfilled == 0 ==> m.quantity <= Held(b, queue[..count])
    ensures count + (if unfilled > 0 then 1 else 0) > MAX_EVENTS_PER_COMMAND <==> TooManyEvents(b, m, queue)
  {
    hide Held;
    if |queue| >= MAX_EVENTS_PER_COMMAND {
      assert queue[..|queue|] == queue;
      if unfilled > 0 {
        HeldPrefix(b, queue, MAX_EVENTS_PER_COMMAND, |queue|);
      } else if count > MAX_EVENTS_PER_COMMAND {
        HeldPrefix(b, queue, MAX_EVENTS_PER_COMMAND, count - 1);
      } else {
        HeldPrefix(b, queue, count, MAX_EVENTS_PER_COMMAND);
      }
    }
  }

  /** The trades take all the queue can give, so what is left is what it cannot. */
  lemma TradedIsHeld(run: u64, b: Book, m: Message, queue: seq<u64>, remaining: u64, index: nat)
    requires Positive(b) && IsNewOrder(m) && IsCrossingQueue(b, m, queue)
    ensures forall k | 0 <= k < |queue| :: queue[k] in b
    ensures var f := Fill(run, b, m, remaining, index);
            && |f.trades| <= |queue|
            && (f.remainder > 0 ==> |f.trades| == |queue| && Held(b, queue) < remaining)
            && (f.remainder == 0 ==> remaining <= Held(b, queue[..|f.trades|]))
  {
    hide Fill, IsCrossingQueue;
    QueueHead(b, m, queue);
    if remaining > 0 && queue != [] {
      FillCount(run, b, m, queue, remaining, index);
      FillTakesAllThatCrosses(run, b, m, remaining, index);
      HeldIsAvailable(b, m, queue);
      assert queue[..|queue|] == queue;
    } else {
      FillStop(run, b, m, remaining, index);
      assert queue[..0] == [];
    }
  }

  /** The queue holds all the quantity that crosses. */
  lemma {:induction false} HeldIsAvailable(b: Book, m: Message, queue: seq<u64>)
    requires IsCrossingQueue(b, m, queue)
    ensures forall k | 0 <= k < |queue| :: queue[k] in b
    ensures Held(b, queue) == Quantity(Crossing(b, m)) && |queue| == |Crossing(b, m)|
    decreases |queue|
  {
    hide Quantity, IsCrossingQueue, Crossing;
    QueueHead(b, m, queue);
    if queue == [] {
      NothingCrossing(b, m);
      QuantityOfNothing();
    } else {
      QueueRest(b, m, queue);
      HeldIsAvailable(b - {queue[0]}, m, queue[1..]);
      CrossingShrinks(b, m, queue[0], b[queue[0]].quantity);
      HeldAfterFirst(b, queue, |queue|);
      assert queue[..|queue|] == queue && queue[1..][..|queue| - 1] == queue[1..];
    }
  }

  /** What the fill of a whole order comes to. */
  lemma OrderFill(run: u64, b: Book, m: Message, queue: seq<u64>)
    requires Positive(b) && IsNewOrder(m) && IsCrossingQueue(b, m, queue)
    ensures forall k | 0 <= k < |queue| :: queue[k] in b
    ensures var f := Fill(run, b, m, m.quantity, 0);
            && f.remainder == Unfilled(b, m) && Traded(f.trades) == m.quantity - Unfilled(b, m)
            && AreTrades(run, b, m, queue, f.trades, 0, m.quantity)
            && JustEnough(b, queue, |f.trades|, m.quantity)
            && BookAfter(b, f.book, f.trades)
            && (m.orderId !in b ==> m.orderId !in f.book)
            && (|f.trades| + (if f.remainder > 0 then 1 else 0) > MAX_EVENTS_PER_COMMAND <==> TooManyEvents(b, m, queue))
  {
    hide Fill, Quantity, Crossing, IsCrossingQueue, Held, AreTrades, JustEnough, BookAfter, TooManyEvents;
    QueueHead(b, m, queue);
    var f := Fill(run, b, m, m.quantity, 0);
    FillTakesAllThatCrosses(run, b, m, m.quantity, 0);
    FillTotals(run, b, m, m.quantity, 0);
    FillShrinks(run, b, m, m.quantity, 0);
    FillTrades(run, b, m, queue, m.quantity, 0);
    FillCount(run, b, m, queue, m.quantity, 0);
    FillBook(run, b, m, queue, m.quantity, 0);
    TradedIsHeld(run, b, m, queue, m.quantity, 0);
    CountDecides(b, m, queue, |f.trades|, f.remainder);
  }

  /**
   * The outcome of a new order that does not throw. It is refused exactly when it would produce too many events or
   * overfill a level, and then nothing changes. Otherwise it trades with the front of the queue, at each maker's price,
   * until it is filled or nothing crosses; then the remainder is cancelled, or rests as an order of its own.
   */
  lemma NewOrderOutcome(run: u64, b: Book, m: Message, queue: seq<u64>) returns (trades: seq<Event>)
    requires Positive(b) && IsNewOrder(m) && IsCrossingQueue(b, m, queue) && Apply(run, b, m).Done?
    ensures m.clientCommandId.Some? && m.orderId !in b && forall k | 0 <= k < |queue| :: queue[k] in b
    ensures var after := Apply(run, b, m);
            && after.batch.correlation == Correlation(m.clientId, m.clientCommandId.value, m.sequence, run)
            && (after.batch.result.CapacityExceeded? <==> TooManyEvents(b, m, queue) || LevelOverflows(b, m))
    ensures var after := Apply(run, b, m);
            after.batch.result.CapacityExceeded? ==>
              && after.book == b
              && after.batch.events ==
                 [CommandRejected(EventId(m.sequence, 0, run), NewOrderCommand, m.clientId, m.clientCommandId.value,
                                  m.orderId, BookCapacityExceeded)]
    ensures var after, unfilled := Apply(run, b, m), Unfilled(b, m);
            after.batch.result.Applied? ==>
              && unfilled <= m.quantity && Traded(trades) == m.quantity - unfilled
              && AreTrades(run, b, m, queue, trades, 0, m.quantity)
              && JustEnough(b, queue, |trades|, m.quantity)
              && after.batch.events == trades + Ending(run, m, |trades|, unfilled)
              && (m.orderId in after.book <==> m.tif == GTC && unfilled > 0)
              && (m.tif == GTC && unfilled > 0 ==>
                    after.book[m.orderId] ==
                    Resting(m.clientId, m.instrumentId, if m.kind.BUY? then Buy else Sell, m.price, unfilled))
              && BookAfter(b, after.book - {m.orderId}, trades)
  {
    hide Fill, Aggregate, IsCrossingQueue, AreTrades, JustEnough, BookAfter, TooManyEvents, Unfilled;
    OrderFill(run, b, m, queue);
    trades := Fill(run, b, m, m.quantity, 0).trades;
    var after := Apply(run, b, m);
    if after.batch.result.Applied? {
      assert after.book - {m.orderId} == Fill(run, b, m, m.quantity, 0).book;
    }
  }

  // ----- A cancel

  /**
   * The outcome of a cancel that does not throw. Only the owner can cancel, only the order named and only where it
   * rests; the reply says which of these failed, or what was cancelled, and every other order is as it was.
   */
  lemma CancelOutcome(run: u64, b: Book, m: Message)
    requires Positive(b) && m.kind.CANCEL? && Apply(run, b, m).Done?
    ensures m.clientCommandId.Some? && m.targetOrderId.Some?
    ensures var after, target := Apply(run, b, m), m.targetOrderId.value;
            && after.batch.correlation == Correlation(m.clientId, m.clientCommandId.value, m.sequence, run)
            && after.batch.result.Applied? && |after.batch.events| == 1
            && after.batch.events[0].eventId == EventId(m.sequence, 0, run)
            && (forall id | id != target || (id in b && b[id].owner != m.clientId) ::
                  && (id in after.book <==> id in b)
                  && (id in b ==> after.book[id] == b[id]))
            && (target in b && target !in after.book <==>
                target in b && b[target].owner == m.clientId && b[target].instrument == m.instrumentId)
            && (target !in b ==> target !in after.book)
    ensures var e, target := Apply(run, b, m).batch.events[0], m.targetOrderId.value;
            && (target !in b <==> e.CommandRejected? && e.rejection == OrderNotActive)
            && (target in b && b[target].owner != m.clientId <==> e.CommandRejected? && e.rejection == NotOwner)
            && (target in b && b[target].owner == m.clientId <==> e.OrderCancelled?)
            && (e.CommandRejected? ==>
                  && e.commandType == CancelCommand && e.clientId == m.clientId
                  && e.clientCommandId == m.clientCommandId.value && e.relevantOrderId == target)
            && (e.OrderCancelled? ==>
                  && e.orderId == target && e.clientId == b[target].owner && e.instrumentId == b[target].instrument
                  && e.cancelledQuantity == b[target].quantity && e.reason == ClientRequested)
  {
  }
}
