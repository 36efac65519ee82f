/** Properties of price-time matching over single commands and over whole runs. */
module PriceTimeTheorems {
  import opened LittleEndian
  import opened Domain
  import opened PriceTime

  // ----- What every reachable book satisfies

  ghost predicate Uncrossed(b: Book) {
    forall bid, ask | bid in b && ask in b ::
      b[bid].instrument == b[ask].instrument && b[bid].side.Buy? && b[ask].side.Sell? ==> b[bid].price < b[ask].price
  }

  ghost predicate IdsBelow(b: Book, next: nat) {
    forall id | id in b :: id < next
  }

  ghost predicate Bounded(b: Book) {
    forall instrument, side, price :: Aggregate(b, instrument, side, price) <= SPY_V1.maxPriceLevelAggregate
  }

  ghost predicate OnlyKnownInstruments(b: Book) {
    forall id | id in b :: b[id].instrument == SPY_V1.instrumentId
  }

  ghost predicate Sound(b: Book, next: nat) {
    Positive(b) && Uncrossed(b) && IdsBelow(b, next) && Bounded(b) && OnlyKnownInstruments(b)
  }

  // ----- The best order exists and is unique

  lemma {:induction false} BestExists(b: Book, instrument: u64, side: Side, some: u64) returns (best: u64)
    requires Competes(b, instrument, side, some)
    ensures IsBest(b, instrument, side, best)
    ensures best == some || Outranks(side, b[best].price, best, b[some].price, some)
    decreases |b|
  {
    if IsBest(b, instrument, side, some) {
      best := some;
    } else {
      var other :| Competes(b, instrument, side, other) && other != some &&
                   !Outranks(side, b[some].price, some, b[other].price, other);
      best := BestExists(b - {some}, instrument, side, other);
      forall k | Competes(b, instrument, side, k) && k != best
        ensures Outranks(side, b[best].price, best, b[k].price, k)
      {
        assert k != some ==> Competes(b - {some}, instrument, side, k);
      }
    }
  }

  /** Matching stops only when no competing order crosses any more. */
  lemma NothingCrosses(b: Book, m: Message)
    requires !exists id :: Matches(b, m, id)
    ensures forall id :: Competes(b, m.instrumentId, MakerSide(m), id) ==> !Crosses(m, b[id].price)
  {
    forall id | Competes(b, m.instrumentId, MakerSide(m), id)
      ensures !Crosses(m, b[id].price)
    {
      var best := BestExists(b, m.instrumentId, MakerSide(m), id);
      assert !Matches(b, m, best);
    }
  }

  // ----- What filling does to the book

  /** `after` holds a subset of the orders of `before`, each untouched or with less quantity. */
  ghost predicate Shrinks(before: Book, after: Book) {
    forall id | id in after ::
      id in before && after[id] == before[id].(quantity := after[id].quantity) && after[id].quantity <= before[id].quantity
  }

  /** Only orders the taker competes against may differ. */
  ghost predicate OthersUntouched(before: Book, after: Book, instrument: u64, side: Side) {
    forall id | id in before && !Competes(before, instrument, side, id) :: id in after && after[id] == before[id]
  }

  function Traded(events: seq<Event>): nat {
    if events == [] then 0
    else (if events[0].Trade? then events[0].executionQuantity else 0) + Traded(events[1..])
  }

  function Cancelled(events: seq<Event>): nat {
    if events == [] then 0
    else (if events[0].OrderCancelled? then events[0].cancelledQuantity else 0) + Cancelled(events[1..])
  }

  lemma {:induction false} FillShrinks(run: u64, b: Book, m: Message, remaining: u64, index: nat)
    requires Positive(b)
    ensures var f := Fill(run, b, m, remaining, index);
            && Positive(f.book)
            && Shrinks(b, f.book)
            && OthersUntouched(b, f.book, m.instrumentId, MakerSide(m))
    decreases remaining
  {
    hide Fill;
    if remaining > 0 && exists id :: Matches(b, m, id) {
      var id :| Matches(b, m, id);
      var quantity := Min(remaining, b[id].quantity);
      FillStep(run, b, m, remaining, index, id);
      FillShrinks(run, Reduce(b, id, quantity), m, remaining - quantity, index + 1);
      ReduceShrinks(b, id, quantity, m.instrumentId, MakerSide(m));
      ShrinksTransitive(b, Reduce(b, id, quantity), Fill(run, b, m, remaining, index).book, m.instrumentId, MakerSide(m));
    } else {
      FillStop(run, b, m, remaining, index);
    }
  }

  lemma ReduceShrinks(b: Book, id: u64, quantity: u64, instrument: u64, side: Side)
    requires Competes(b, instrument, side, id) && quantity <= b[id].quantity
    ensures Shrinks(b, Reduce(b, id, quantity)) && OthersUntouched(b, Reduce(b, id, quantity), instrument, side)
  {
  }

  lemma ShrinksTransitive(a: Book, b: Book, c: Book, instrument: u64, side: Side)
    requires Shrinks(a, b) && Shrinks(b, c)
    requires OthersUntouched(a, b, instrument, side) && OthersUntouched(b, c, instrument, side)
    ensures Shrinks(a, c) && OthersUntouched(a, c, instrument, side)
  {
  }

  lemma {:induction false} FillExhausts(run: u64, b: Book, m: Message, remaining: u64, index: nat)
    requires Positive(b)
    ensures var f := Fill(run, b, m, remaining, index);
            f.remainder > 0 ==>
              forall id :: Competes(f.book, m.instrumentId, MakerSide(m), id) ==> !Crosses(m, f.book[id].price)
    decreases remaining
  {
    hide Fill;
    if remaining > 0 && exists id :: Matches(b, m, id) {
      var id :| Matches(b, m, id);
      var quantity := Min(remaining, b[id].quantity);
      FillStep(run, b, m, remaining, index, id);
      FillExhausts(run, Reduce(b, id, quantity), m, remaining - quantity, index + 1);
    } else {
      FillStop(run, b, m, remaining, index);
      if remaining > 0 {
        NothingCrosses(b, m);
      }
    }
  }

  lemma {:induction false} FillTotals(run: u64, b: Book, m: Message, remaining: u64, index: nat)
    requires Positive(b)
    ensures var f := Fill(run, b, m, remaining, index);
            && f.remainder <= remaining
            && |f.trades| <= remaining - f.remainder
            && Traded(f.trades) == remaining - f.remainder
            && Cancelled(f.trades) == 0
            && Quantity(f.book) == Quantity(b) - Traded(f.trades)
    decreases remaining
  {
    hide Fill, Quantity;
    if remaining > 0 && exists id :: Matches(b, m, id) {
      var id :| Matches(b, m, id);
      var quantity := Min(remaining, b[id].quantity);
      FillStep(run, b, m, remaining, index, id);
      QuantityReduce(b, id, quantity);
      hide Reduce;
      FillTotals(run, Reduce(b, id, quantity), m, remaining - quantity, index + 1);
      var rest := Fill(run, Reduce(b, id, quantity), m, remaining - quantity, index + 1).trades;
      var trade := TradeOf(run, m, id, b[id], remaining, index);
      assert ([trade] + rest)[1..] == rest;
    } else {
      FillStop(run, b, m, remaining, index);
    }
  }

  lemma {:induction false} QuantityMonotone(before: Book, after: Book)
    requires Shrinks(before, after)
    ensures Quantity(after) <= Quantity(before)
    decreases |after|
  {
    if after != map[] {
      var id :| id in after;
      QuantityRemove(after, id);
      QuantityRemove(before, id);
      QuantityMonotone(before - {id}, after - {id});
    }
  }

  lemma AggregateMonotone(before: Book, after: Book, instrument: u64, side: Side, price: u64)
    requires Shrinks(before, after)
    ensures Aggregate(after, instrument, side, price) <= Aggregate(before, instrument, side, price)
  {
    QuantityMonotone(AtLevel(before, instrument, side, price), AtLevel(after, instrument, side, price));
  }

  /** Filling leaves every level of the other sides with the aggregate it had. */
  lemma AggregateUntouched(before: Book, after: Book, instrument: u64, filled: Side, side: Side, price: u64)
    requires Shrinks(before, after) && OthersUntouched(before, after, instrument, filled) && side != filled
    ensures Aggregate(after, instrument, side, price) == Aggregate(before, instrument, side, price)
  {
    assert AtLevel(after, instrument, side, price) == AtLevel(before, instrument, side, price);
  }

  lemma AggregatePut(b: Book, id: u64, order: Resting, instrument: u64, side: Side, price: u64)
    requires id !in b
    ensures Aggregate(b[id := order], instrument, side, price) ==
            Aggregate(b, instrument, side, price) +
            (if (order.instrument, order.side, order.price) == (instrument, side, price) then order.quantity else 0)
  {
    var level := AtLevel(b, instrument, side, price);
    if (order.instrument, order.side, order.price) == (instrument, side, price) {
      assert AtLevel(b[id := order], instrument, side, price) == level[id := order];
      QuantityPut(level, id, order);
    } else {
      assert AtLevel(b[id := order], instrument, side, price) == level;
    }
  }

  lemma ShrinkKeepsSound(before: Book, after: Book, next: nat)
    requires Sound(before, next) && Shrinks(before, after) && Positive(after)
    ensures Sound(after, next)
  {
    forall instrument, side, price
      ensures Aggregate(after, instrument, side, price) <= SPY_V1.maxPriceLevelAggregate
    {
      AggregateMonotone(before, after, instrument, side, price);
    }
  }

  // ----- One command

  /** A message as the sequencer hands it to matching. */
  predicate Sequenced(m: Message, next: nat) {
    m.sequence == next && (IsNewOrder(m) ==> m.orderId == next)
  }

  /** Resting a remainder that no longer crosses and fits its level keeps the book sound. */
  lemma RestKeepsSound(b: Book, m: Message, remainder: u64, next: nat)
    requires Sound(b, next) && IsNewOrder(m) && m.orderId == next && remainder > 0
    requires m.instrumentId == SPY_V1.instrumentId
    requires forall id :: Competes(b, m.instrumentId, MakerSide(m), id) ==> !Crosses(m, b[id].price)
    requires Aggregate(b, m.instrumentId, TakerSide(m), m.price) + remainder <= SPY_V1.maxPriceLevelAggregate
    ensures Sound(b[m.orderId := RestingOrder(m, remainder)], next + 1)
  {
    var order := RestingOrder(m, remainder);
    var after := b[m.orderId := order];
    forall instrument, side, price
      ensures Aggregate(after, instrument, side, price) <= SPY_V1.maxPriceLevelAggregate
    {
      AggregatePut(b, m.orderId, order, instrument, side, price);
    }
    forall bid, ask | bid in after && ask in after
      ensures after[bid].instrument == after[ask].instrument && after[bid].side.Buy? && after[ask].side.Sell? ==>
                after[bid].price < after[ask].price
    {
      var other := if bid == m.orderId then ask else bid;
      assert Competes(b, m.instrumentId, MakerSide(m), other) ==> !Crosses(m, b[other].price);
    }
  }

  /** Every command keeps the book sound: in particular uncrossed and within the level capacity. */
  lemma ApplyKeepsSound(run: u64, b: Book, m: Message, next: nat)
    requires Sound(b, next) && Sequenced(m, next) && Apply(run, b, m).Done?
    ensures Sound(Apply(run, b, m).book, next + 1)
  {
    if IsNewOrder(m) {
      NewOrderKeepsSound(run, b, m, next);
    } else {
      ShrinkKeepsSound(b, ApplyCancel(run, b, m).book, next);
    }
  }

  lemma NewOrderKeepsSound(run: u64, b: Book, m: Message, next: nat)
    requires Sound(b, next) && IsNewOrder(m) && m.orderId == next && m.clientCommandId.Some?
    requires ApplyNewOrder(run, b, m).Done?
    ensures Sound(ApplyNewOrder(run, b, m).book, next + 1)
  {
    hide Fill, Aggregate, Quantity;
    var f := Fill(run, b, m, m.quantity, 0);
    FillShrinks(run, b, m, m.quantity, 0);
    FillExhausts(run, b, m, m.quantity, 0);
    ShrinkKeepsSound(b, f.book, next);
    AggregateMonotone(b, f.book, m.instrumentId, TakerSide(m), m.price);
    hide Shrinks, OthersUntouched;
    var after := ApplyNewOrder(run, b, m).book;
    if after != b && after != f.book {
      RestKeepsSound(f.book, m, f.remainder, next);
    }
  }

  function AppliedQuantity(m: Message, batch: Batch): nat {
    if IsNewOrder(m) && batch.result.Applied? then m.quantity else 0
  }

  lemma {:induction false} TotalsOfAppend(events: seq<Event>, last: Event)
    ensures Traded(events + [last]) == Traded(events) + Traded([last])
    ensures Cancelled(events + [last]) == Cancelled(events) + Cancelled([last])
  {
    if events == [] {
      assert events + [last] == [last];
    } else {
      assert (events + [last])[1..] == events[1..] + [last];
      TotalsOfAppend(events[1..], last);
    }
  }

  /**
   * Conservation: the quantity brought in by an applied order is exactly what traded (once for each side), what was
   * cancelled, and the change in what rests.
   */
  lemma ApplyConserves(run: u64, b: Book, m: Message)
    requires Positive(b) && Apply(run, b, m).Done?
    ensures var after := Apply(run, b, m);
            Quantity(b) + AppliedQuantity(m, after.batch) ==
            Quantity(after.book) + 2 * Traded(after.batch.events) + Cancelled(after.batch.events)
  {
    if IsNewOrder(m) {
      NewOrderConserves(run, b, m);
    } else if m.targetOrderId.value in b {
      QuantityRemove(b, m.targetOrderId.value);
    }
  }

  lemma NewOrderConserves(run: u64, b: Book, m: Message)
    requires Positive(b) && IsNewOrder(m) && m.clientCommandId.Some? && ApplyNewOrder(run, b, m).Done?
    ensures var after := ApplyNewOrder(run, b, m);
            Quantity(b) + AppliedQuantity(m, after.batch) ==
            Quantity(after.book) + 2 * Traded(after.batch.events) + Cancelled(after.batch.events)
  {
    hide Fill, Aggregate, Quantity;
    var f := Fill(run, b, m, m.quantity, 0);
    FillTotals(run, b, m, m.quantity, 0);
    FillShrinks(run, b, m, m.quantity, 0);
    TotalsOfAppend(f.trades, RestedEvent(run, m, f.remainder, |f.trades|));
    TotalsOfAppend(f.trades, RemainderCancelled(run, m, f.remainder, |f.trades|));
    QuantityPut(f.book, m.orderId, RestingOrder(m, f.remainder));
    assert m.orderId !in f.book;
  }

  // ----- The shape of a result batch

  /** Event `k` of a batch carries index `k` and the identity of the command. */
  ghost predicate EventIdsFollow(batch: Batch) {
    forall k | 0 <= k < |batch.events| ::
      batch.events[k].eventId == EventId(batch.correlation.sequence, k, batch.correlation.run)
  }

  lemma {:induction false} FillNumbersTrades(run: u64, b: Book, m: Message, remaining: u64, index: nat)
    requires Positive(b)
    ensures var f := Fill(run, b, m, remaining, index);
            forall k | 0 <= k < |f.trades| ::
              f.trades[k].Trade? && f.trades[k].eventId == EventId(m.sequence, index + k, run)
    decreases remaining
  {
    hide Fill;
    if remaining > 0 && exists id :: Matches(b, m, id) {
      var id :| Matches(b, m, id);
      var quantity := Min(remaining, b[id].quantity);
      FillStep(run, b, m, remaining, index, id);
      FillNumbersTrades(run, Reduce(b, id, quantity), m, remaining - quantity, index + 1);
    } else {
      FillStop(run, b, m, remaining, index);
    }
  }

  /** Every batch matching produces identifies its command and carries between 1 and 4096 numbered events. */
  lemma BatchShape(run: u64, b: Book, m: Message)
    requires Positive(b) && Apply(run, b, m).Done?
    ensures var batch := Apply(run, b, m).batch;
            && batch.correlation == CorrelationOf(run, m)
            && EventIdsFollow(batch)
            && |batch.events| <= MAX_EVENTS_PER_COMMAND
            && (!IsNewOrder(m) || m.quantity > 0 ==> |batch.events| >= 1)
            && (forall k | 0 <= k < |batch.events| - 1 :: batch.events[k].Trade?)
  {
    hide Fill, Aggregate, Quantity;
    if IsNewOrder(m) {
      FillNumbersTrades(run, b, m, m.quantity, 0);
      FillTotals(run, b, m, m.quantity, 0);
      assert Fill(run, b, m, m.quantity, 0).trades == [] ==> Traded([]) == 0;
    }
  }

  // ----- When matching throws

  /** The resting orders an incoming order can trade with: opposite side, same instrument, crossing price. */
  function Crossing(b: Book, m: Message): Book {
    map id | id in b && Competes(b, m.instrumentId, MakerSide(m), id) && Crosses(m, b[id].price) :: b[id]
  }

  lemma CrossingAfterTrade(b: Book, m: Message, id: u64, quantity: u64)
    requires Matches(b, m, id) && quantity <= b[id].quantity
    ensures id in Crossing(b, m) && Crossing(b, m)[id] == b[id]
    ensures Crossing(Reduce(b, id, quantity), m) == Reduce(Crossing(b, m), id, quantity)
  {
    hide Quantity;
    var smaller := Reduce(b, id, quantity);
    assert forall k :: k in Crossing(smaller, m) <==> k in Reduce(Crossing(b, m), id, quantity);
  }

  /** One trade takes its quantity from what crosses, and the order itself once it is filled. */
  lemma CrossingShrinks(b: Book, m: Message, id: u64, quantity: u64)
    requires Matches(b, m, id) && quantity <= b[id].quantity
    ensures var before, after := Crossing(b, m), Crossing(Reduce(b, id, quantity), m);
            && Quantity(before) == Quantity(after) + quantity
            && (quantity == b[id].quantity ==> |before| == |after| + 1)
    ensures b[id].quantity <= Quantity(Crossing(b, m))
  {
    hide Quantity, Crossing;
    CrossingAfterTrade(b, m, id, quantity);
    QuantityReduce(Crossing(b, m), id, quantity);
    QuantityRemove(Crossing(b, m), id);
  }

  lemma NothingCrossing(b: Book, m: Message)
    requires !exists id :: Matches(b, m, id)
    ensures Crossing(b, m) == map[]
  {
    NothingCrosses(b, m);
  }

  /**
   * An order trades all it can: its remainder is its quantity less everything that crosses it, and one that keeps a
   * remainder has traded with each crossing order exactly once.
   */
  lemma {:induction false} FillTakesAllThatCrosses(run: u64, b: Book, m: Message, remaining: u64, index: nat)
    requires Positive(b)
    ensures var f, available := Fill(run, b, m, remaining, index), Quantity(Crossing(b, m));
            && f.remainder == (if remaining <= available then 0 else remaining - available)
            && (f.remainder > 0 ==> |f.trades| == |Crossing(b, m)|)
    decreases remaining
  {
    hide Fill, Quantity, Crossing;
    if remaining > 0 && exists id :: Matches(b, m, id) {
      var id :| Matches(b, m, id);
      var quantity := Min(remaining, b[id].quantity);
      FillStep(run, b, m, remaining, index, id);
      CrossingShrinks(b, m, id, quantity);
      hide Reduce, Matches;
      FillTakesAllThatCrosses(run, Reduce(b, id, quantity), m, remaining - quantity, index + 1);
    } else {
      FillStop(run, b, m, remaining, index);
      if remaining > 0 {
        NothingCrossing(b, m);
        QuantityOfNothing();
      }
    }
  }

  /** The remainder of a good-till-cancel order would have to rest under a configuration nobody knows. */
  ghost predicate RestsUnconfigured(b: Book, m: Message) {
    && m.tif == GTC
    && m.quantity > Quantity(Crossing(b, m)) && |Crossing(b, m)| < MAX_EVENTS_PER_COMMAND
    && FindByIdentity(m.instrumentId, m.configurationVersion).None?
  }

  /**
   * Exactly when matching refuses its input by throwing, in terms a caller can evaluate beforehand: the fields of the
   * message and the orders that rest, never the matching itself.
   */
  lemma ThrowsExactlyWhen(run: u64, b: Book, m: Message)
    requires Positive(b)
    ensures Apply(run, b, m).Thrown? <==>
            || m.clientId == 0 || m.clientCommandId.None? || m.sequence == 0 || m.kind.CANCELREJ?
            || (IsNewOrder(m) && ((m.tif != GTC && m.tif != IOC) || m.orderId in b || RestsUnconfigured(b, m)))
            || (m.kind.CANCEL? &&
                (|| m.instrumentId == 0 || m.targetOrderId.None? || m.orderId != 0
                 || (&& m.targetOrderId.value in b
                     && b[m.targetOrderId.value].owner == m.clientId
                     && b[m.targetOrderId.value].instrument != m.instrumentId)))
  {
    hide Fill, Quantity, Crossing, Aggregate;
    FillTakesAllThatCrosses(run, b, m, m.quantity, 0);
  }

  /** Two messages with every identification present that matching nevertheless throws on. */
  lemma ThrownInputs(run: u64)
    ensures var order := Message(1, None, 1, 7, Some([120]), 2, 1, 10, 5, BUY, GTC);
            Apply(run, map[], order) == Thrown(UnknownConfiguration)
    ensures var cancel := Message(3, Some(1), 1, 7, Some([120]), 1, 1, 0, 0, CANCEL, GTC);
            Apply(run, map[], cancel) == Thrown(UnexpectedOrderId)
  {
    var order := Message(1, None, 1, 7, Some([120]), 2, 1, 10, 5, BUY, GTC);
    FillStop(run, map[], order, 5, 0);
  }

  /** What the journal codec and the run header guarantee about a command, plus an order id of 0 on cancels. */
  ghost predicate Admissible(m: Message) {
    && m.clientId > 0 && m.clientCommandId.Some?
    && FindByIdentity(m.instrumentId, m.configurationVersion).Some?
    && (IsNewOrder(m) ==> (m.tif == GTC || m.tif == IOC) && m.quantity > 0 && m.price > 0)
    && (!IsNewOrder(m) ==> m.kind.CANCEL? && m.targetOrderId.Some? && m.orderId == 0)
  }

  lemma AdmissibleNeverThrows(run: u64, b: Book, m: Message, next: nat)
    requires Sound(b, next) && 0 < next && Sequenced(m, next) && Admissible(m)
    ensures Apply(run, b, m).Done?
  {
    ThrowsExactlyWhen(run, b, m);
  }

  // ----- Price-time priority as a statement about lists

  /** `queue` lists exactly the competing orders, best first. */
  ghost predicate IsPriorityQueue(b: Book, instrument: u64, side: Side, queue: seq<u64>) {
    && (forall k | 0 <= k < |queue| :: Competes(b, instrument, side, queue[k]))
    && (forall id :: Competes(b, instrument, side, id) ==> id in queue)
    && (forall j, k | 0 <= j < k < |queue| ::
          Outranks(side, b[queue[j]].price, queue[j], b[queue[k]].price, queue[k]))
  }

  /** Greedy fill of a list of resting orders: each is consumed whole until the taker or the crossing ends. */
  function ListFill(run: u64, b: Book, queue: seq<u64>, m: Message, remaining: u64, index: nat): seq<Event>
    requires forall k | 0 <= k < |queue| :: queue[k] in b
    decreases |queue|
  {
    if remaining == 0 || queue == [] || !Crosses(m, b[queue[0]].price) then []
    else
      [TradeOf(run, m, queue[0], b[queue[0]], remaining, index)] +
      ListFill(run, b, queue[1..], m, remaining - Min(remaining, b[queue[0]].quantity), index + 1)
  }

  /** Price-time refinement: the trades are the greedy fill of the opposite orders in priority order. */
  lemma {:induction false} FillFollowsQueue(run: u64, whole: Book, b: Book, queue: seq<u64>, m: Message,
                                            remaining: u64, index: nat)
    requires Positive(b) && IsPriorityQueue(b, m.instrumentId, MakerSide(m), queue)
    requires forall k | 0 <= k < |queue| :: queue[k] in whole && whole[queue[k]] == b[queue[k]]
    ensures Fill(run, b, m, remaining, index).trades == ListFill(run, whole, queue, m, remaining, index)
    decreases |queue|
  {
    hide Fill;
    if remaining > 0 && queue != [] && Crosses(m, b[queue[0]].price) {
      var id := queue[0];
      var quantity := Min(remaining, b[id].quantity);
      assert Matches(b, m, id);
      FillStep(run, b, m, remaining, index, id);
      if quantity == b[id].quantity {
        QueueTail(b, m.instrumentId, MakerSide(m), queue);
        assert forall k | 0 <= k < |queue[1..]| :: queue[1..][k] == queue[k + 1];
        FillFollowsQueue(run, whole, b - {id}, queue[1..], m, remaining - quantity, index + 1);
      } else {
        FillStop(run, Reduce(b, id, quantity), m, 0, index + 1);
      }
    } else {
      if remaining > 0 {
        forall id
          ensures !Matches(b, m, id)
        {
          if id in queue {
            assert Competes(b, m.instrumentId, MakerSide(m), queue[0]);
          }
        }
      }
      FillStop(run, b, m, remaining, index);
    }
  }

  lemma QueueTail(b: Book, instrument: u64, side: Side, queue: seq<u64>)
    requires IsPriorityQueue(b, instrument, side, queue) && queue != []
    ensures IsPriorityQueue(b - {queue[0]}, instrument, side, queue[1..])
    ensures forall k | 0 < k < |queue| :: queue[k] != queue[0]
  {
    var rest, tail := b - {queue[0]}, queue[1..];
    forall id | Competes(rest, instrument, side, id)
      ensures id in tail
    {
      assert Competes(b, instrument, side, id);
    }
    forall k | 0 <= k < |tail|
      ensures Competes(rest, instrument, side, tail[k])
    {
      assert tail[k] == queue[k + 1];
    }
  }

  /** Every book has such a list: take the best order, then list the others. */
  lemma {:induction false} PriorityQueueExists(b: Book, instrument: u64, side: Side) returns (queue: seq<u64>)
    ensures IsPriorityQueue(b, instrument, side, queue)
    decreases |b|
  {
    if some :| Competes(b, instrument, side, some) {
      var best := BestExists(b, instrument, side, some);
      var rest := PriorityQueueExists(b - {best}, instrument, side);
      queue := [best] + rest;
      BestThenRest(b, instrument, side, best, rest);
    } else {
      queue := [];
    }
  }

  lemma BestThenRest(b: Book, instrument: u64, side: Side, best: u64, rest: seq<u64>)
    requires IsBest(b, instrument, side, best) && IsPriorityQueue(b - {best}, instrument, side, rest)
    ensures IsPriorityQueue(b, instrument, side, [best] + rest)
  {
    var queue := [best] + rest;
    assert forall k | 0 <= k < |rest| :: Competes(b - {best}, instrument, side, rest[k]);
    forall id | Competes(b, instrument, side, id)
      ensures id in queue
    {
      assert id != best ==> Competes(b - {best}, instrument, side, id);
    }
    forall j, k | 0 <= j < k < |queue|
      ensures Outranks(side, b[queue[j]].price, queue[j], b[queue[k]].price, queue[k])
    {
      assert queue[k] == rest[k - 1];
      assert j > 0 ==> queue[j] == rest[j - 1];
    }
  }

  lemma PriceTimePriority(run: u64, b: Book, queue: seq<u64>, m: Message)
    requires Positive(b) && IsPriorityQueue(b, m.instrumentId, MakerSide(m), queue)
    ensures Fill(run, b, m, m.quantity, 0).trades == ListFill(run, b, queue, m, m.quantity, 0)
  {
    FillFollowsQueue(run, b, b, queue, m, m.quantity, 0);
  }

  /** A trade of `m` with an order of `b`, at that order's price, naming each client and order in its own role. */
  ghost predicate FromMaker(b: Book, m: Message, trade: Event) {
    && trade.Trade?
    && Competes(b, m.instrumentId, MakerSide(m), trade.makerOrderId)
    && trade.makerClientId == b[trade.makerOrderId].owner && trade.instrumentId == m.instrumentId
    && trade.takerClientId == m.clientId && trade.takerOrderId == m.orderId && trade.takerSide == TakerSide(m)
    && trade.executionPrice == b[trade.makerOrderId].price
    && Crosses(m, trade.executionPrice)
    && trade.executionQuantity + trade.makerRemaining == b[trade.makerOrderId].quantity
  }

  predicate TradesBefore(m: Message, first: Event, second: Event)
    requires first.Trade? && second.Trade?
  {
    Outranks(MakerSide(m), first.executionPrice, first.makerOrderId, second.executionPrice, second.makerOrderId)
  }

  /** Each trade is at its maker's price, makers appear in priority order, and only the last may be left part filled. */
  ghost predicate InPriorityOrder(b: Book, m: Message, trades: seq<Event>) {
    && (forall k | 0 <= k < |trades| :: FromMaker(b, m, trades[k]))
    && (forall k | 0 <= k < |trades| - 1 :: trades[k].makerRemaining == 0)
    && (forall j, k | 0 <= j < k < |trades| :: TradesBefore(m, trades[j], trades[k]))
  }

  lemma {:induction false} TradesInPriorityOrder(run: u64, b: Book, m: Message, remaining: u64, index: nat)
    requires Positive(b)
    ensures InPriorityOrder(b, m, Fill(run, b, m, remaining, index).trades)
    decreases remaining
  {
    hide Fill;
    if remaining > 0 && exists id :: Matches(b, m, id) {
      var id :| Matches(b, m, id);
      var quantity := Min(remaining, b[id].quantity);
      var smaller := Reduce(b, id, quantity);
      FillStep(run, b, m, remaining, index, id);
      if quantity == b[id].quantity {
        TradesInPriorityOrder(run, smaller, m, remaining - quantity, index + 1);
        FirstTradeBefore(b, m, id, TradeOf(run, m, id, b[id], remaining, index),
                         Fill(run, smaller, m, remaining - quantity, index + 1).trades);
      } else {
        FillStop(run, smaller, m, 0, index + 1);
      }
    } else {
      FillStop(run, b, m, remaining, index);
    }
  }

  lemma FirstTradeBefore(b: Book, m: Message, id: u64, trade: Event, rest: seq<Event>)
    requires Matches(b, m, id) && FromMaker(b, m, trade) && trade.makerOrderId == id && trade.makerRemaining == 0
    requires InPriorityOrder(b - {id}, m, rest)
    ensures InPriorityOrder(b, m, [trade] + rest)
  {
    var trades := [trade] + rest;
    forall k | 0 <= k < |rest|
      ensures FromMaker(b, m, rest[k]) && TradesBefore(m, trade, rest[k])
    {
      assert FromMaker(b - {id}, m, rest[k]);
      assert Competes(b, m.instrumentId, MakerSide(m), rest[k].makerOrderId);
    }
    hide FromMaker, TradesBefore;
  }

  // ----- Whole runs

  datatype Ran = Ran(book: Book, batches: seq<Batch>)

  ghost predicate RunSucceeds(run: u64, ms: seq<Message>)
    decreases |ms|, 0
  {
    ms == [] ||
    (var front := ms[..|ms| - 1];
     RunSucceeds(run, front) && Positive(Run(run, front).book) &&
     Apply(run, Run(run, front).book, ms[|ms| - 1]).Done?)
  }

  /** The book and the batches after applying the messages in order to an empty book. */
  ghost function Run(run: u64, ms: seq<Message>): Ran
    requires RunSucceeds(run, ms)
    decreases |ms|, 1
  {
    if ms == [] then Ran(map[], [])
    else
      var before := Run(run, ms[..|ms| - 1]);
      var outcome := Apply(run, before.book, ms[|ms| - 1]);
      Ran(outcome.book, before.batches + [outcome.batch])
  }

  /** Message `k` of a run carries sequence number `k + 1`. */
  ghost predicate SequencedRun(ms: seq<Message>) {
    forall k | 0 <= k < |ms| :: Sequenced(ms[k], k + 1)
  }

  /** Every run of admissible, consecutively sequenced commands succeeds and keeps the book sound throughout. */
  lemma {:induction false} RunIsSound(run: u64, ms: seq<Message>)
    requires SequencedRun(ms) && forall k | 0 <= k < |ms| :: Admissible(ms[k])
    ensures RunSucceeds(run, ms)
    ensures Sound(Run(run, ms).book, |ms| + 1)
    ensures |Run(run, ms).batches| == |ms|
    decreases |ms|
  {
    if ms == [] {
      EmptyIsSound();
    } else {
      var front, m := ms[..|ms| - 1], ms[|ms| - 1];
      RunIsSound(run, front);
      var before := Run(run, front);
      AdmissibleNeverThrows(run, before.book, m, |ms|);
      ApplyKeepsSound(run, before.book, m, |ms|);
    }
  }

  lemma EmptyIsSound()
    ensures Sound(map[], 1)
  {
    forall instrument, side, price
      ensures Aggregate(map[], instrument, side, price) == 0
    {
      assert AtLevel(map[], instrument, side, price) == map[];
    }
  }

  ghost function AppliedTotal(ms: seq<Message>, batches: seq<Batch>): nat
    requires |ms| == |batches|
    decreases |ms|
  {
    if ms == [] then 0
    else
      AppliedTotal(ms[..|ms| - 1], batches[..|ms| - 1]) + AppliedQuantity(ms[|ms| - 1], batches[|ms| - 1])
  }

  ghost function TradedTotal(batches: seq<Batch>): nat {
    if batches == [] then 0
    else TradedTotal(batches[..|batches| - 1]) + Traded(batches[|batches| - 1].events)
  }

  ghost function CancelledTotal(batches: seq<Batch>): nat {
    if batches == [] then 0
    else CancelledTotal(batches[..|batches| - 1]) + Cancelled(batches[|batches| - 1].events)
  }

  /** Conservation over every run: nothing is created or lost between orders, trades, cancels and the book. */
  lemma {:induction false} RunConserves(run: u64, ms: seq<Message>)
    requires RunSucceeds(run, ms)
    ensures |Run(run, ms).batches| == |ms|
    ensures var ran := Run(run, ms);
            AppliedTotal(ms, ran.batches) ==
            2 * TradedTotal(ran.batches) + CancelledTotal(ran.batches) + Quantity(ran.book)
    decreases |ms|
  {
    if ms != [] {
      var front := ms[..|ms| - 1];
      RunConserves(run, front);
      ApplyConserves(run, Run(run, front).book, ms[|ms| - 1]);
      assert Run(run, ms).batches[..|ms| - 1] == Run(run, front).batches;
    }
  }

  /** Results of a prefix of the commands are a prefix of the results. */
  lemma {:induction false} RunPrefix(run: u64, ms: seq<Message>, count: nat)
    requires RunSucceeds(run, ms) && count <= |ms|
    ensures RunSucceeds(run, ms[..count])
    ensures |Run(run, ms).batches| == |ms|
    ensures Run(run, ms[..count]).batches == Run(run, ms).batches[..count]
    decreases |ms|
  {
    if ms == [] {
      assert ms[..count] == ms;
    } else {
      var front := ms[..|ms| - 1];
      RunPrefix(run, front, if count < |ms| then count else 0);
      if count == |ms| {
        assert ms[..count] == ms;
      } else {
        assert ms[..count] == front[..count];
      }
    }
  }
}
