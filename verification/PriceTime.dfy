/**
 * What the matching engine is for, stated without its data structures: the resting orders are an unordered map by
 * order id, and an incoming order trades with the best competing order until nothing crosses.
 */
module PriceTime {
  import opened LittleEndian
  import opened Domain

  datatype Resting = Resting(owner: u64, instrument: u64, side: Side, price: u64, quantity: u64)

  /** Resting orders by order id. */
  type Book = map<u64, Resting>

  ghost predicate Positive(b: Book) {
    forall id | id in b :: b[id].quantity > 0
  }

  /** Price priority, then time priority (order ids are sequence numbers, so smaller means earlier). */
  predicate Outranks(side: Side, price: u64, id: u64, otherPrice: u64, otherId: u64) {
    (if side.Buy? then price > otherPrice else price < otherPrice) || (price == otherPrice && id < otherId)
  }

  predicate Competes(b: Book, instrument: u64, side: Side, id: u64) {
    id in b && b[id].instrument == instrument && b[id].side == side
  }

  ghost predicate IsBest(b: Book, instrument: u64, side: Side, id: u64) {
    && Competes(b, instrument, side, id)
    && forall other :: Competes(b, instrument, side, other) && other != id ==>
         Outranks(side, b[id].price, id, b[other].price, other)
  }

  function TakerSide(m: Message): Side {
    if m.kind.BUY? then Buy else Sell
  }

  function MakerSide(m: Message): Side {
    if m.kind.BUY? then Sell else Buy
  }

  predicate Crosses(m: Message, makerPrice: u64) {
    if m.kind.BUY? then makerPrice <= m.price else makerPrice >= m.price
  }

  ghost predicate Matches(b: Book, m: Message, id: u64) {
    IsBest(b, m.instrumentId, MakerSide(m), id) && Crosses(m, b[id].price)
  }

  function Min(a: u64, b: u64): u64 {
    if a <= b then a else b
  }

  function TradeOf(run: u64, m: Message, id: u64, maker: Resting, remaining: u64, index: nat): Event {
    var quantity := Min(remaining, maker.quantity);
    Trade(EventId(m.sequence, index, run), m.instrumentId, id, maker.owner, m.orderId, m.clientId, TakerSide(m),
          maker.price, quantity, maker.quantity - quantity, remaining - quantity)
  }

  /** The book after `quantity` of order `id` has traded. */
  function Reduce(b: Book, id: u64, quantity: u64): Book
    requires id in b && quantity <= b[id].quantity
  {
    if quantity == b[id].quantity then b - {id} else b[id := b[id].(quantity := b[id].quantity - quantity)]
  }

  datatype Filled = Filled(book: Book, trades: seq<Event>, remainder: u64)

  /** Greedy matching: trade with the best order while it crosses and quantity remains. */
  ghost function Fill(run: u64, b: Book, m: Message, remaining: u64, index: nat): Filled
    requires Positive(b)
    decreases remaining
  {
    if remaining > 0 && exists id :: Matches(b, m, id) then
      var id :| Matches(b, m, id);
      var quantity := Min(remaining, b[id].quantity);
      var rest := Fill(run, Reduce(b, id, quantity), m, remaining - quantity, index + 1);
      Filled(rest.book, [TradeOf(run, m, id, b[id], remaining, index)] + rest.trades, rest.remainder)
    else
      Filled(b, [], remaining)
  }

  /** The best order is unique, so one step of `Fill` is determined by any witness. */
  lemma FillStep(run: u64, b: Book, m: Message, remaining: u64, index: nat, id: u64)
    requires Positive(b) && remaining > 0 && Matches(b, m, id)
    ensures Positive(Reduce(b, id, Min(remaining, b[id].quantity)))
    ensures var quantity := Min(remaining, b[id].quantity);
            var rest := Fill(run, Reduce(b, id, quantity), m, remaining - quantity, index + 1);
            Fill(run, b, m, remaining, index) ==
            Filled(rest.book, [TradeOf(run, m, id, b[id], remaining, index)] + rest.trades, rest.remainder)
  {
    assert forall other :: Matches(b, m, other) ==> other == id;
  }

  lemma FillStop(run: u64, b: Book, m: Message, remaining: u64, index: nat)
    requires Positive(b) && (remaining == 0 || !exists id :: Matches(b, m, id))
    ensures Fill(run, b, m, remaining, index) == Filled(b, [], remaining)
  {
  }

  /** Total quantity of a set of orders. */
  ghost function Quantity(b: Book): nat
    decreases |b|
  {
    if b == map[] then 0 else var id :| id in b; b[id].quantity + Quantity(b - {id})
  }

  lemma QuantityOfNothing()
    ensures Quantity(map[]) == 0
  {
  }

  lemma {:induction false} QuantityRemove(b: Book, id: u64)
    requires id in b
    ensures Quantity(b) == b[id].quantity + Quantity(b - {id})
    decreases |b|
  {
    var chosen :| chosen in b && Quantity(b) == b[chosen].quantity + Quantity(b - {chosen});
    if chosen != id {
      QuantityRemove(b - {chosen}, id);
      QuantityRemove(b - {id}, chosen);
      assert b - {chosen} - {id} == b - {id} - {chosen};
    }
  }

  lemma QuantityPut(b: Book, id: u64, order: Resting)
    ensures Quantity(b[id := order]) == order.quantity + Quantity(b - {id})
    ensures id !in b ==> b - {id} == b
  {
    QuantityRemove(b[id := order], id);
    assert b[id := order] - {id} == b - {id};
  }

  lemma QuantityReduce(b: Book, id: u64, quantity: u64)
    requires id in b && quantity <= b[id].quantity
    ensures Quantity(Reduce(b, id, quantity)) == Quantity(b) - quantity
  {
    QuantityRemove(b, id);
    QuantityPut(b, id, b[id].(quantity := b[id].quantity - quantity));
  }

  /** The orders resting at one price of one side of one instrument. */
  function AtLevel(b: Book, instrument: u64, side: Side, price: u64): Book {
    map id | id in b && Competes(b, instrument, side, id) && b[id].price == price :: b[id]
  }

  ghost function Aggregate(b: Book, instrument: u64, side: Side, price: u64): nat {
    Quantity(AtLevel(b, instrument, side, price))
  }

  datatype Outcome =
    | Thrown(error: LogicError)
    | Done(book: Book, batch: Batch)

  function CorrelationOf(run: u64, m: Message): Correlation
    requires m.clientCommandId.Some?
  {
    Correlation(m.clientId, m.clientCommandId.value, m.sequence, run)
  }

  function Rejection(run: u64, m: Message, commandType: CommandType, orderId: u64, reason: RejectionReason): Event
    requires m.clientCommandId.Some?
  {
    CommandRejected(EventId(m.sequence, 0, run), commandType, m.clientId, m.clientCommandId.value, orderId, reason)
  }

  function RestedEvent(run: u64, m: Message, remainder: u64, index: nat): Event {
    OrderRested(EventId(m.sequence, index, run), m.orderId, m.clientId, m.instrumentId, TakerSide(m), m.price, remainder)
  }

  function RemainderCancelled(run: u64, m: Message, remainder: u64, index: nat): Event {
    OrderCancelled(EventId(m.sequence, index, run), m.orderId, m.clientId, m.instrumentId, remainder, IocRemainder)
  }

  function RestingOrder(m: Message, remainder: u64): Resting {
    Resting(m.clientId, m.instrumentId, TakerSide(m), m.price, remainder)
  }

  ghost function ApplyNewOrder(run: u64, b: Book, m: Message): Outcome
    requires Positive(b) && m.clientCommandId.Some? && IsNewOrder(m)
  {
    var done := (book: Book, result: ProcessingResult, events: seq<Event>) =>
      Done(book, Batch(CorrelationOf(run, m), result, events));
    var rejected := done(b, CapacityExceeded, [Rejection(run, m, NewOrderCommand, m.orderId, BookCapacityExceeded)]);
    if m.tif != GTC && m.tif != IOC then Thrown(UnsupportedTimeInForce)
    else if m.orderId in b then Thrown(DuplicateOrderId)
    else
      var filled := Fill(run, b, m, m.quantity, 0);
      var planned := |filled.trades| + (if filled.remainder > 0 then 1 else 0);
      if planned > MAX_EVENTS_PER_COMMAND then rejected
      else if filled.remainder == 0 then done(filled.book, Applied, filled.trades)
      else if m.tif == IOC then
        done(filled.book, Applied,
             filled.trades + [RemainderCancelled(run, m, filled.remainder, |filled.trades|)])
      else
        var configuration := FindByIdentity(m.instrumentId, m.configurationVersion);
        if configuration.None? then Thrown(UnknownConfiguration)
        else if Aggregate(b, m.instrumentId, TakerSide(m), m.price) + filled.remainder
                > configuration.value.maxPriceLevelAggregate then rejected
        else
          done(filled.book[m.orderId := RestingOrder(m, filled.remainder)], Applied,
               filled.trades + [RestedEvent(run, m, filled.remainder, |filled.trades|)])
  }

  function ApplyCancel(run: u64, b: Book, m: Message): Outcome
    requires m.clientCommandId.Some?
  {
    if m.instrumentId == 0 || m.targetOrderId.None? then Thrown(IncompleteCancel)
    else if m.orderId != 0 then Thrown(UnexpectedOrderId)
    else
      var target := m.targetOrderId.value;
      var done := (book: Book, event: Event) => Done(book, Batch(CorrelationOf(run, m), Applied, [event]));
      if target !in b then done(b, Rejection(run, m, CancelCommand, target, OrderNotActive))
      else if b[target].owner != m.clientId then done(b, Rejection(run, m, CancelCommand, target, NotOwner))
      else if b[target].instrument != m.instrumentId then Thrown(WrongInstrument)
      else
        done(b - {target},
             OrderCancelled(EventId(m.sequence, 0, run), target, b[target].owner, b[target].instrument,
                            b[target].quantity, ClientRequested))
  }

  /** The effect of one sequenced command. */
  ghost function Apply(run: u64, b: Book, m: Message): Outcome
    requires Positive(b)
  {
    if m.clientId == 0 || m.clientCommandId.None? || m.sequence == 0 then Thrown(MissingCorrelation)
    else if IsNewOrder(m) then ApplyNewOrder(run, b, m)
    else if m.kind.CANCEL? then ApplyCancel(run, b, m)
    else Thrown(UnsupportedType)
  }
}
