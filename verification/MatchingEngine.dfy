/**
 * The mutable matching state of one run. Each command is planned without mutation, checked against the capacity
 * limits, and only then executed; the methods below are proved against `PriceTime.Apply`. A branch in which the
 * engine would throw because its own structures disagree holds `assert false`: it cannot be reached.
 */
module MatchingEngine {
  import opened LittleEndian
  import opened Domain
  import opened PriceTime
  import opened PriceTimeTheorems
  import opened BookIndex

  datatype Reply =
    | Threw(error: LogicError)
    | Replied(batch: Batch)

  /** The command threw, or its result is a single rejection. */
  predicate Refused(reply: Reply) {
    reply.Threw? || (|reply.batch.events| == 1 && reply.batch.events[0].CommandRejected?)
  }

  /** The orders at the positions before (i, k) of a side. */
  ghost predicate Consumed(levels: seq<PriceLevel>, i: nat, k: nat, ids: set<u64>) {
    && (forall i', k' :: Before(levels, i', k', i, k) ==> levels[i'].orders[k'].orderId in ids)
    && (forall id | id in ids :: exists i', k' :: Before(levels, i', k', i, k) && levels[i'].orders[k'].orderId == id)
  }

  ghost predicate Before(levels: seq<PriceLevel>, i': int, k': int, i: nat, k: nat) {
    0 <= i' < |levels| && 0 <= k' < |levels[i'].orders| && (i' < i || (i' == i && k' < k))
  }

  /** A listed order that has not been consumed is still competing. */
  lemma PlaceIsUnique(books: Books, index: Index, instrument: u64, side: Side, i: nat, k: nat, i': nat, k': nat)
    requires Consistent(books, index)
    requires var levels := Levels(books, instrument, side);
             && i < |levels| && k < |levels[i].orders| && i' < |levels| && k' < |levels[i'].orders|
             && levels[i].orders[k].orderId == levels[i'].orders[k'].orderId
    ensures i == i' && k == k'
  {
    var levels := Levels(books, instrument, side);
    SideOf(books, index, instrument, side);
    assert Indexes(index, levels[i].orders[k], instrument, side, levels[i].price);
    assert Indexes(index, levels[i'].orders[k'], instrument, side, levels[i'].price);
    OnlyOneLevel(levels, instrument, side, index, levels[i].price);
  }

  lemma NotConsumed(books: Books, index: Index, instrument: u64, side: Side, i: nat, k: nat, ids: set<u64>)
    requires Consistent(books, index)
    requires var levels := Levels(books, instrument, side);
             i < |levels| && k < |levels[i].orders| && Consumed(levels, i, k, ids)
    ensures Levels(books, instrument, side)[i].orders[k].orderId !in ids
  {
    hide Consistent, Levels;
    var levels := Levels(books, instrument, side);
    var id := levels[i].orders[k].orderId;
    if id in ids {
      var i', k' :| Before(levels, i', k', i, k) && levels[i'].orders[k'].orderId == id;
      PlaceIsUnique(books, index, instrument, side, i, k, i', k');
    }
  }

  /** The book lists orders in priority order: the first order not consumed is the best one left. */
  lemma NextIsBest(books: Books, index: Index, instrument: u64, side: Side, i: nat, k: nat, ids: set<u64>)
    requires Consistent(books, index)
    requires var levels := Levels(books, instrument, side);
             i < |levels| && k < |levels[i].orders| && Consumed(levels, i, k, ids)
    ensures var node := Levels(books, instrument, side)[i].orders[k];
            && node.orderId in index && index[node.orderId].location == node
            && index[node.orderId].price == Levels(books, instrument, side)[i].price
            && index[node.orderId].remaining > 0
            && IsBest(Abs(index) - ids, instrument, side, node.orderId)
  {
    hide Consistent, Levels, Consumed;
    var id := Levels(books, instrument, side)[i].orders[k].orderId;
    ListedIsIndexed(books, index, instrument, side, i, k);
    NotConsumed(books, index, instrument, side, i, k, ids);
    forall other | Competes(Abs(index) - ids, instrument, side, other) && other != id
      ensures Outranks(side, index[id].price, id, index[other].price, other)
    {
      RanksBelow(books, index, instrument, side, i, k, ids, other);
    }
  }

  lemma ListedIsIndexed(books: Books, index: Index, instrument: u64, side: Side, i: nat, k: nat)
    requires Consistent(books, index)
    requires i < |Levels(books, instrument, side)| && k < |Levels(books, instrument, side)[i].orders|
    ensures var level := Levels(books, instrument, side)[i];
            Indexes(index, level.orders[k], instrument, side, level.price) && index[level.orders[k].orderId].remaining > 0
  {
    SideOf(books, index, instrument, side);
    var level := Levels(books, instrument, side)[i];
    assert LevelOk(level, instrument, side, index);
    assert Indexes(index, level.orders[k], instrument, side, level.price);
    assert EntryOk(books, level.orders[k].orderId, index[level.orders[k].orderId]);
  }

  lemma RanksBelow(books: Books, index: Index, instrument: u64, side: Side, i: nat, k: nat, ids: set<u64>, other: u64)
    requires Consistent(books, index)
    requires var levels := Levels(books, instrument, side);
             i < |levels| && k < |levels[i].orders| && Consumed(levels, i, k, ids)
    requires other in index && other !in ids && OnSide(index[other], instrument, side)
    requires other != Levels(books, instrument, side)[i].orders[k].orderId
    ensures var levels := Levels(books, instrument, side);
            Outranks(side, levels[i].price, levels[i].orders[k].orderId, index[other].price, other)
  {
    hide Consistent, Levels, LevelOk;
    var levels := Levels(books, instrument, side);
    var i', k' := WhereIs(books, index, other);
    assert !Before(levels, i', k', i, k);
    if i < i' {
      assert Better(side, levels[i].price, levels[i'].price);
    } else {
      InLevelOrder(levels[i], instrument, side, index, k, k');
    }
  }

  lemma InLevelOrder(level: PriceLevel, instrument: u64, side: Side, index: Index, j: nat, k: nat)
    requires LevelOk(level, instrument, side, index) && j < |level.orders| && k < |level.orders|
    ensures j < k ==> level.orders[j].orderId < level.orders[k].orderId
  {
  }

  /** With every listed order consumed, nothing competes. */
  lemma NothingLeft(books: Books, index: Index, instrument: u64, side: Side, ids: set<u64>)
    requires Consistent(books, index)
    requires Consumed(Levels(books, instrument, side), |Levels(books, instrument, side)|, 0, ids)
    ensures forall id :: !Competes(Abs(index) - ids, instrument, side, id)
  {
    var levels := Levels(books, instrument, side);
    forall id
      ensures !Competes(Abs(index) - ids, instrument, side, id)
    {
      if id in index && index[id].instrument == instrument && index[id].side == side {
        var i', k' := WhereIs(books, index, id);
        assert Before(levels, i', k', |levels|, 0);
      }
    }
  }

  lemma ConsumeOne(levels: seq<PriceLevel>, i: nat, k: nat, ids: set<u64>)
    requires i < |levels| && k < |levels[i].orders| && Consumed(levels, i, k, ids)
    ensures Consumed(levels, i, k + 1, ids + {levels[i].orders[k].orderId})
  {
    var more := ids + {levels[i].orders[k].orderId};
    assert Before(levels, i, k, i, k + 1);
    forall id | id in more
      ensures exists i', k' :: Before(levels, i', k', i, k + 1) && levels[i'].orders[k'].orderId == id
    {
      if id in ids {
        var i', k' :| Before(levels, i', k', i, k) && levels[i'].orders[k'].orderId == id;
        assert Before(levels, i', k', i, k + 1);
      }
    }
    forall i', k' | Before(levels, i', k', i, k + 1)
      ensures levels[i'].orders[k'].orderId in more
    {
      assert Before(levels, i', k', i, k) || (i', k') == (i, k);
    }
  }

  lemma ConsumeLevel(levels: seq<PriceLevel>, i: nat, ids: set<u64>)
    requires i < |levels| && Consumed(levels, i, |levels[i].orders|, ids)
    ensures Consumed(levels, i + 1, 0, ids)
  {
    assert forall i', k' :: Before(levels, i', k', i + 1, 0) <==> Before(levels, i', k', i, |levels[i].orders|);
  }

  lemma AbsPositive(books: Books, index: Index, ids: set<u64>)
    requires Consistent(books, index)
    ensures Positive(Abs(index) - ids)
  {
    assert forall id | id in index :: EntryOk(books, id, index[id]);
  }

  lemma RefusedUnplanned(run: u64, b: Book, m: Message)
    requires Positive(b) && IsNewOrder(m) && m.clientCommandId.Some?
    ensures m.tif != GTC && m.tif != IOC ==> ApplyNewOrder(run, b, m) == Thrown(UnsupportedTimeInForce)
    ensures (m.tif == GTC || m.tif == IOC) && m.orderId in b ==> ApplyNewOrder(run, b, m) == Thrown(DuplicateOrderId)
  {
    hide Fill;
  }

  lemma AbsOfPut(index: Index, id: u64, order: ActiveOrder)
    ensures Abs(index[id := order]) ==
            Abs(index)[id := Resting(order.owner, order.instrument, order.side, order.price, order.remaining)]
  {
  }

  lemma AbsOfReduce(index: Index, id: u64, quantity: u64)
    requires id in index && quantity <= index[id].remaining
    ensures id in Abs(index)
    ensures Abs(index)[id] ==
            Resting(index[id].owner, index[id].instrument, index[id].side, index[id].price, index[id].remaining)
    ensures Reduce(Abs(index), id, quantity) ==
            Abs(if quantity == index[id].remaining then index - {id}
                else index[id := index[id].(remaining := index[id].remaining - quantity)])
  {
  }

  class MatchingState {
    const run: u64
    var orderBooks: Books
    var activeOrders: Index
    ghost var nodes: set<OrderNode>

    /** Book and index agree, and each entry repeats the quantity stored in the node it points at. */
    ghost predicate Valid()
      reads this, nodes
    {
      && Consistent(orderBooks, activeOrders)
      && (forall id | id in activeOrders ::
            activeOrders[id].location in nodes && activeOrders[id].location.remaining == activeOrders[id].remaining)
    }

    ghost function Resting(): Book
      reads this
    {
      Abs(activeOrders)
    }

    constructor (run: u64)
      ensures Valid() && Resting() == map[] && this.run == run && fresh(nodes)
    {
      this.run := run;
      orderBooks, activeOrders, nodes := map[], map[], {};
    }

    /** What the plan still has to account for once `ids` are consumed and `remaining` is left. */
    ghost predicate PlanOpen(m: Message, i: nat, k: nat, ids: set<u64>, remaining: u64, count: nat, whole: Filled)
      reads this
    {
      && Consumed(Levels(orderBooks, m.instrumentId, MakerSide(m)), i, k, ids)
      && Positive(Resting() - ids)
      && var rest := Fill(run, Resting() - ids, m, remaining, count);
         whole.remainder == rest.remainder && |whole.trades| == count + |rest.trades|
    }

    /** The remainder and trade count matching would produce, found without changing anything. */
    method PlanMatches(m: Message) returns (remainder: u64, executionCount: nat)
      requires Valid() && IsNewOrder(m)
      ensures Positive(Resting())
      ensures remainder == Fill(run, Resting(), m, m.quantity, 0).remainder
      ensures executionCount == |Fill(run, Resting(), m, m.quantity, 0).trades|
    {
      hide PlanOpen, Fill, Consistent;
      PlanStarts(m);
      ghost var ids: set<u64> := {};
      ghost var whole := Fill(run, Resting(), m, m.quantity, 0);
      FillNothing(m);
      remainder, executionCount := m.quantity, 0;
      var levels := Levels(orderBooks, m.instrumentId, MakerSide(m));
      var i := 0;
      while remainder > 0 && i < |levels|
        invariant 0 <= i <= |levels|
        invariant remainder == 0 ==> whole.remainder == 0 && |whole.trades| == executionCount
        invariant remainder > 0 ==> PlanOpen(m, i, 0, ids, remainder, executionCount, whole)
        decreases |levels| - i
      {
        if !Crosses(m, levels[i].price) {
          NoneEligible(m, i, ids, remainder, executionCount, whole);
          return;
        }
        remainder, executionCount, ids := PlanLevel(m, i, remainder, executionCount, ids, whole);
        i := i + 1;
      }
      if remainder > 0 {
        NoneLeft(m, ids, remainder, executionCount, whole);
      }
    }

    lemma PlanStarts(m: Message)
      requires Valid()
      ensures Positive(Resting())
      ensures PlanOpen(m, 0, 0, {}, m.quantity, 0, Fill(run, Resting(), m, m.quantity, 0))
    {
      AbsPositive(orderBooks, activeOrders, {});
      assert Resting() - {} == Resting();
    }

    lemma FillNothing(m: Message)
      requires Positive(Resting())
      ensures m.quantity == 0 ==> Fill(run, Resting(), m, m.quantity, 0) == Filled(Resting(), [], 0)
    {
    }

    lemma NoneEligible(m: Message, i: nat, ids: set<u64>, remaining: u64, count: nat, whole: Filled)
      requires Valid() && IsNewOrder(m) && PlanOpen(m, i, 0, ids, remaining, count, whole)
      requires var levels := Levels(orderBooks, m.instrumentId, MakerSide(m));
               i < |levels| && !Crosses(m, levels[i].price)
      ensures whole.remainder == remaining && |whole.trades| == count
    {
      SideOf(orderBooks, activeOrders, m.instrumentId, MakerSide(m));
      assert LevelOk(Levels(orderBooks, m.instrumentId, MakerSide(m))[i], m.instrumentId, MakerSide(m), activeOrders);
      hide Consistent, Levels, SideOk;
      NextIsBest(orderBooks, activeOrders, m.instrumentId, MakerSide(m), i, 0, ids);
    }

    lemma NoneLeft(m: Message, ids: set<u64>, remaining: u64, count: nat, whole: Filled)
      requires Valid() && IsNewOrder(m)
      requires PlanOpen(m, |Levels(orderBooks, m.instrumentId, MakerSide(m))|, 0, ids, remaining, count, whole)
      ensures whole.remainder == remaining && |whole.trades| == count
    {
      NothingLeft(orderBooks, activeOrders, m.instrumentId, MakerSide(m), ids);
    }

    /** The inner planning loop: one price level, order by order. */
    method PlanLevel(m: Message, i: nat, remainderIn: u64, countIn: nat, ghost idsIn: set<u64>, ghost whole: Filled)
      returns (remainder: u64, executionCount: nat, ghost ids: set<u64>)
      requires Valid() && IsNewOrder(m) && remainderIn > 0
      requires PlanOpen(m, i, 0, idsIn, remainderIn, countIn, whole)
      requires var levels := Levels(orderBooks, m.instrumentId, MakerSide(m));
               i < |levels| && Crosses(m, levels[i].price)
      ensures remainder == 0 ==> whole.remainder == 0 && |whole.trades| == executionCount
      ensures remainder > 0 ==> PlanOpen(m, i + 1, 0, ids, remainder, executionCount, whole)
    {
      hide PlanOpen, Consistent;
      remainder, executionCount, ids := remainderIn, countIn, idsIn;
      var orders := Levels(orderBooks, m.instrumentId, MakerSide(m))[i].orders;
      var k := 0;
      while k < |orders| && remainder > 0
        invariant 0 <= k <= |orders|
        invariant remainder == 0 ==> whole.remainder == 0 && |whole.trades| == executionCount
        invariant remainder > 0 ==> PlanOpen(m, i, k, ids, remainder, executionCount, whole)
      {
        var order := orders[k];
        PlanStep(m, i, k, ids, remainder, executionCount, whole);
        if order.remaining == 0 {
          assert false; // a zero-quantity order never remains in the book
        }
        var tradeQuantity := Min(remainder, order.remaining);
        ids := ids + {order.orderId};
        remainder := remainder - tradeQuantity;
        executionCount := executionCount + 1;
        k := k + 1;
      }
      if remainder > 0 {
        PlanNextLevel(m, i, ids, remainder, executionCount, whole);
      }
    }

    /** One planned trade is one step of the greedy fill. */
    lemma PlanStep(m: Message, i: nat, k: nat, ids: set<u64>, remaining: u64, count: nat, whole: Filled)
      requires Valid() && IsNewOrder(m) && remaining > 0 && PlanOpen(m, i, k, ids, remaining, count, whole)
      requires var levels := Levels(orderBooks, m.instrumentId, MakerSide(m));
               i < |levels| && k < |levels[i].orders| && Crosses(m, levels[i].price)
      ensures var node := Levels(orderBooks, m.instrumentId, MakerSide(m))[i].orders[k];
              && node in nodes && node.remaining > 0
              && (remaining <= node.remaining ==> whole.remainder == 0 && |whole.trades| == count + 1)
              && (node.remaining < remaining ==>
                    PlanOpen(m, i, k + 1, ids + {node.orderId}, remaining - node.remaining, count + 1, whole))
    {
      hide Consistent, Levels, Consumed;
      var levels := Levels(orderBooks, m.instrumentId, MakerSide(m));
      var id := levels[i].orders[k].orderId;
      NextIsBest(orderBooks, activeOrders, m.instrumentId, MakerSide(m), i, k, ids);
      FillStep(run, Resting() - ids, m, remaining, count, id);
      assert Resting() - ids - {id} == Resting() - (ids + {id});
      ConsumeOne(levels, i, k, ids);
    }

    lemma PlanNextLevel(m: Message, i: nat, ids: set<u64>, remaining: u64, count: nat, whole: Filled)
      requires var levels := Levels(orderBooks, m.instrumentId, MakerSide(m));
               i < |levels| && PlanOpen(m, i, |levels[i].orders|, ids, remaining, count, whole)
      ensures PlanOpen(m, i + 1, 0, ids, remaining, count, whole)
    {
      ConsumeLevel(Levels(orderBooks, m.instrumentId, MakerSide(m)), i, ids);
    }

    /** Executes one trade against the oldest order of the best opposite level. */
    method ExecuteTrade(m: Message, remaining: u64, events: seq<Event>) returns (left: u64, trade: Event)
      requires Valid() && IsNewOrder(m) && remaining > 0
      requires var levels := Levels(orderBooks, m.instrumentId, MakerSide(m));
               levels != [] && Crosses(m, levels[0].price)
      modifies this`orderBooks, this`activeOrders, nodes
      ensures Valid() && left < remaining
      ensures Positive(old(Resting())) && Positive(Resting())
      ensures var rest := Fill(run, Resting(), m, left, |events| + 1);
              Fill(run, old(Resting()), m, remaining, |events|) ==
              Filled(rest.book, [trade] + rest.trades, rest.remainder)
    {
      hide Consistent, Fill, Levels, SetSide, Abs, Matches, Positive;
      var side := MakerSide(m);
      var levels := Levels(orderBooks, m.instrumentId, side);
      HeadFacts(m);
      if levels[0].orders == [] {
        assert false; // no empty level remains
      }
      var node := levels[0].orders[0];
      var id := node.orderId;
      if id !in activeOrders || activeOrders[id].instrument != m.instrumentId || activeOrders[id].side != side ||
         activeOrders[id].price != levels[0].price || activeOrders[id].location != node ||
         activeOrders[id].remaining != node.remaining || activeOrders[id].owner != node.owner {
        assert false; // index and node agree
      }
      ghost var books, index := orderBooks, activeOrders;
      var order := activeOrders[id];
      var quantity := Min(remaining, node.remaining);
      if quantity == 0 || quantity > levels[0].total {
        assert false; // the level total covers each of its orders
      }
      AbsOfReduce(index, id, quantity);
      FillStep(run, Resting(), m, remaining, |events|, id);
      var makerRemaining := node.remaining - quantity;
      left := remaining - quantity;
      trade := Trade(EventId(m.sequence, |events|, run), m.instrumentId, id, node.owner, m.orderId, m.clientId,
                     TakerSide(m), levels[0].price, quantity, makerRemaining, left);
      node.remaining := makerRemaining;
      activeOrders := activeOrders[id := order.(remaining := makerRemaining)];
      orderBooks := SetSide(orderBooks, m.instrumentId, side, Lighten(levels, 0, quantity));
      if makerRemaining == 0 {
        RemoveFilledOrder(id, books, index);
      } else {
        ReduceKeeps(books, index, id, quantity);
      }
      OtherNodes(books, index, id);
    }

    /** What the invariant says about the head of the best level. */
    lemma HeadFacts(m: Message)
      requires Valid() && IsNewOrder(m)
      requires var levels := Levels(orderBooks, m.instrumentId, MakerSide(m));
               levels != [] && Crosses(m, levels[0].price)
      ensures Positive(Resting())
      ensures var level := Levels(orderBooks, m.instrumentId, MakerSide(m))[0];
              && level.orders != []
              && Indexes(activeOrders, level.orders[0], m.instrumentId, MakerSide(m), level.price)
              && level.orders[0] in nodes
              && 0 < level.orders[0].remaining == activeOrders[level.orders[0].orderId].remaining <= level.total
              && Matches(Resting(), m, level.orders[0].orderId)
              && Find(Levels(orderBooks, m.instrumentId, MakerSide(m)), level.price) == 0
    {
      hide Consistent, Levels;
      var side := MakerSide(m);
      var level := Levels(orderBooks, m.instrumentId, side)[0];
      AbsPositive(orderBooks, activeOrders, {});
      assert Resting() - {} == Resting();
      FirstLevel(orderBooks, activeOrders, m.instrumentId, side);
      NextIsBest(orderBooks, activeOrders, m.instrumentId, side, 0, 0, {});
      ListedIsIndexed(orderBooks, activeOrders, m.instrumentId, side, 0, 0);
    }

    /** Entries other than `id` point at nodes other than that of `id`. */
    lemma OtherNodes(books: Books, index: Index, id: u64)
      requires Consistent(books, index) && id in index
      ensures forall other | other in index && other != id :: index[other].location != index[id].location
    {
      assert forall other | other in index :: EntryOk(books, other, index[other]);
    }

    /** Unlinks an order whose quantity has just reached zero; `books` and `index` are the state before the trade. */
    method RemoveFilledOrder(id: u64, ghost books: Books, ghost index: Index)
      requires Consistent(books, index) && id in index
      requires activeOrders == index[id := index[id].(remaining := 0)] && index[id].location.remaining == 0
      requires var levels := Levels(books, index[id].instrument, index[id].side);
               var i := Find(levels, index[id].price);
               && i < |levels| && index[id].remaining <= levels[i].total
               && orderBooks == SetSide(books, index[id].instrument, index[id].side,
                                        Lighten(levels, i, index[id].remaining))
      modifies this`orderBooks, this`activeOrders
      ensures activeOrders == index - {id} && Consistent(orderBooks, activeOrders)
    {
      hide Consistent;
      if activeOrders[id].remaining != 0 || activeOrders[id].location.remaining != 0 {
        assert false; // only a filled order comes here
      }
      var order := activeOrders[id];
      ghost var i, k := WhereIs(books, index, id);
      ghost var before := Levels(books, order.instrument, order.side);
      SoleOrderTotal(before[i], order.instrument, order.side, index, k);
      LevelsOfSetSide(books, order.instrument, order.side, Lighten(before, i, index[id].remaining),
                      order.instrument, order.side);
      FindLightened(before, order.price, index[id].remaining);
      if order.instrument !in orderBooks {
        assert false; // an indexed order has a book
      }
      var levels := Levels(orderBooks, order.instrument, order.side);
      var found := Find(levels, order.price);
      if found == |levels| {
        assert false; // an indexed order has a level
      }
      var position := Position(levels[found].orders, order.location);
      if |levels[found].orders| == 1 && levels[found].total != 0 {
        assert false; // the last order takes the whole total with it
      }
      activeOrders := activeOrders - {id};
      orderBooks := SetSide(orderBooks, order.instrument, order.side, Unlink(levels, found, position));
      RemoveKeeps(books, index, id);
      SetSideTwice(books, order.instrument, order.side, Lighten(before, i, index[id].remaining),
                   Unlink(levels, found, position));
      assert activeOrders == index - {id};
    }

    /** The matching loop: trade at the best level while it crosses and quantity remains. */
    method MatchOrder(m: Message) returns (remaining: u64, events: seq<Event>)
      requires Valid() && IsNewOrder(m)
      modifies this`orderBooks, this`activeOrders, nodes
      ensures Valid()
      ensures Positive(old(Resting()))
      ensures Fill(run, old(Resting()), m, m.quantity, 0) == Filled(Resting(), events, remaining)
    {
      hide Consistent, Fill, Levels;
      remaining, events := m.quantity, [];
      RestingPositive();
      ghost var whole := Fill(run, Resting(), m, m.quantity, 0);
      assert whole.trades == [] + whole.trades;
      while remaining > 0
        invariant Valid() && Positive(Resting())
        invariant var rest := Fill(run, Resting(), m, remaining, |events|);
                  whole == Filled(rest.book, events + rest.trades, rest.remainder)
        decreases remaining
      {
        var levels := Levels(orderBooks, m.instrumentId, MakerSide(m));
        if levels == [] || !Crosses(m, levels[0].price) {
          NothingToTrade(m, remaining, |events|);
          return;
        }
        ghost var seen := events;
        var trade;
        remaining, trade := ExecuteTrade(m, remaining, events);
        events := events + [trade];
        ghost var rest := Fill(run, Resting(), m, remaining, |events|);
        assert seen + ([trade] + rest.trades) == events + rest.trades;
      }
      FillOfNothing(m, |events|);
    }

    lemma RestingPositive()
      requires Valid()
      ensures Positive(Resting())
    {
      AbsPositive(orderBooks, activeOrders, {});
      assert Resting() - {} == Resting();
    }

    lemma FillOfNothing(m: Message, index: nat)
      requires Positive(Resting())
      ensures Fill(run, Resting(), m, 0, index) == Filled(Resting(), [], 0)
    {
    }

    lemma NothingToTrade(m: Message, remaining: u64, index: nat)
      requires Valid() && IsNewOrder(m) && Positive(Resting())
      requires var levels := Levels(orderBooks, m.instrumentId, MakerSide(m));
               levels == [] || !Crosses(m, levels[0].price)
      ensures Fill(run, Resting(), m, remaining, index) == Filled(Resting(), [], remaining)
    {
      hide Consistent, Levels;
      assert Resting() - {} == Resting();
      if Levels(orderBooks, m.instrumentId, MakerSide(m)) == [] {
        NothingLeft(orderBooks, activeOrders, m.instrumentId, MakerSide(m), {});
      } else {
        FirstLevel(orderBooks, activeOrders, m.instrumentId, MakerSide(m));
        NextIsBest(orderBooks, activeOrders, m.instrumentId, MakerSide(m), 0, 0, {});
      }
    }

    /** Whether a remainder fits its own level; looks only at stored totals. */
    method CanAddOrder(m: Message, quantity: u64) returns (verdict: CapacityVerdict)
      requires Valid() && IsNewOrder(m)
      ensures verdict == Verdict(Resting(), m, quantity)
    {
      if quantity == 0 {
        return HasRoom;
      }
      var configuration := FindByIdentity(m.instrumentId, m.configurationVersion);
      if configuration.None? {
        return UnknownInstrument;
      }
      TotalIsAggregate(orderBooks, activeOrders, m.instrumentId, TakerSide(m), m.price);
      var levels := Levels(orderBooks, m.instrumentId, TakerSide(m));
      var found := Find(levels, m.price);
      var current := if found < |levels| then levels[found].total else 0;
      var maximum := configuration.value.maxPriceLevelAggregate;
      verdict := if current <= maximum && quantity <= maximum - current then HasRoom else Exceeds;
    }

    /** Rests a remainder behind the orders already at its price. */
    method AddOrder(m: Message, remaining: u64) returns (result: ProcessingResult)
      requires Valid() && IsNewOrder(m) && remaining > 0
      requires m.orderId !in activeOrders && forall id | id in activeOrders :: id < m.orderId
      requires Verdict(Resting(), m, remaining) != UnknownInstrument
      modifies this
      ensures Valid() && fresh(nodes - old(nodes))
      ensures result == if Verdict(old(Resting()), m, remaining) == HasRoom then Applied else CapacityExceeded
      ensures Resting() == if result.Applied? then old(Resting())[m.orderId := RestingOrder(m, remaining)]
                           else old(Resting())
    {
      hide Consistent, Aggregate, Abs, Verdict;
      var verdict := CanAddOrder(m, remaining);
      if verdict == Exceeds {
        return CapacityExceeded;
      }
      var node := new OrderNode(m.orderId, m.clientId, remaining);
      var levels := Levels(orderBooks, m.instrumentId, TakerSide(m));
      var order := ActiveOrder(m.clientId, m.instrumentId, TakerSide(m), m.price, remaining, node);
      FitsLevel(m, remaining);
      AddKeeps(orderBooks, activeOrders, order);
      hide Levels, Append, SetSide, Find;
      nodes := nodes + {node};
      orderBooks := SetSide(orderBooks, m.instrumentId, TakerSide(m),
                            Append(TakerSide(m), levels, m.price, node, remaining));
      activeOrders := activeOrders[m.orderId := order];
      AbsOfPut(old(activeOrders), m.orderId, order);
      result := Applied;
    }

    lemma FitsLevel(m: Message, remaining: u64)
      requires Valid() && IsNewOrder(m) && remaining > 0 && Verdict(Resting(), m, remaining) == HasRoom
      ensures var levels := Levels(orderBooks, m.instrumentId, TakerSide(m));
              var i := Find(levels, m.price);
              (if i < |levels| then levels[i].total else 0) + remaining <= MAX_AGGREGATE
    {
      TotalIsAggregate(orderBooks, activeOrders, m.instrumentId, TakerSide(m), m.price);
    }

    /** Takes a client-cancelled order out of its level and out of the index. */
    method RemoveCancelledOrder(id: u64)
      requires Valid() && id in activeOrders
      modifies this`orderBooks, this`activeOrders
      ensures Valid() && Resting() == old(Resting()) - {id}
    {
      hide Consistent;
      ghost var i, k := WhereIs(orderBooks, activeOrders, id);
      if activeOrders[id].remaining == 0 {
        assert false; // resting quantities are positive
      }
      var order := activeOrders[id];
      if order.instrument !in orderBooks {
        assert false; // an indexed order has a book
      }
      var levels := Levels(orderBooks, order.instrument, order.side);
      var found := Find(levels, order.price);
      if found == |levels| {
        assert false; // an indexed order has a level
      }
      var position := Position(levels[found].orders, order.location);
      var level := levels[found];
      AllPositive(orderBooks, activeOrders);
      SoleOrderTotal(level, order.instrument, order.side, activeOrders, position);
      if position == |level.orders| || level.orders[position].orderId != id ||
         level.orders[position].owner != order.owner ||
         level.orders[position].remaining != order.remaining || level.total < order.remaining {
        assert false; // the node in the level is the one the index points at
      }
      var removeLevel := |level.orders| == 1;
      if (removeLevel && level.total != order.remaining) || (!removeLevel && level.total <= order.remaining) {
        assert false; // level totals are sums of positive quantities
      }
      RemoveKeeps(orderBooks, activeOrders, id);
      hide Levels, SetSide, Unlink;
      orderBooks := SetSide(orderBooks, order.instrument, order.side,
                            Unlink(Lighten(levels, found, order.remaining), found, position));
      activeOrders := activeOrders - {id};
      assert Resting() == old(Resting()) - {id};
    }

    /** Plans, checks capacity, matches, and rests or cancels what is left. */
    method ProcessOrder(m: Message) returns (reply: Reply)
      requires Valid() && IsNewOrder(m) && m.clientCommandId.Some? && (m.tif == GTC || m.tif == IOC)
      requires m.orderId !in activeOrders && forall id | id in activeOrders :: id < m.orderId
      modifies this, nodes
      ensures Valid() && fresh(nodes - old(nodes))
      ensures Positive(old(Resting()))
      ensures Agrees(reply, Resting(), old(Resting()), ApplyNewOrder(run, old(Resting()), m))
      ensures Refused(reply) ==> unchanged(this) && unchanged(old(nodes))
    {
      hide Consistent, Fill, Levels;
      var remainder, executionCount := PlanMatches(m);
      ghost var book := Resting();
      ghost var whole := Fill(run, book, m, m.quantity, 0);
      var plannedEventCount := executionCount + (if remainder > 0 then 1 else 0);
      var restRemainder := m.tif == GTC;
      if plannedEventCount > MAX_EVENTS_PER_COMMAND {
        return Rejected(m);
      }
      if restRemainder {
        var verdict := CanAddOrder(m, remainder);
        if verdict == UnknownInstrument {
          return Threw(UnknownConfiguration);
        }
        if verdict == Exceeds {
          return Rejected(m);
        }
      }
      FillNumbersTrades(run, book, m, m.quantity, 0);
      var remaining, events := MatchOrder(m);
      if remaining != remainder || |events| != executionCount {
        assert false; // execution agrees with the plan
      }
      if restRemainder && remaining > 0 {
        VerdictSurvivesMatching(m, book, remaining);
        var result := AddOrder(m, remaining);
        if result != Applied {
          assert false; // the capacity found before matching is still there
        }
        events := events + [RestedEvent(run, m, remaining, |events|)];
      } else if remaining > 0 {
        events := events + [RemainderCancelled(run, m, remaining, |events|)];
      }
      if |events| != plannedEventCount {
        assert false; // the terminal event was planned
      }
      reply := Replied(Batch(CorrelationOf(run, m), Applied, events));
    }

    function Rejected(m: Message): Reply
      requires m.clientCommandId.Some?
    {
      Replied(Batch(CorrelationOf(run, m), CapacityExceeded,
                    [Rejection(run, m, NewOrderCommand, m.orderId, BookCapacityExceeded)]))
    }

    /** Matching only touches the opposite side, so the level a remainder joins still has room. */
    lemma VerdictSurvivesMatching(m: Message, book: Book, remaining: u64)
      requires Valid() && IsNewOrder(m) && Positive(book) && m.orderId !in book
      requires forall id | id in book :: id < m.orderId
      requires Fill(run, book, m, m.quantity, 0).book == Resting()
      ensures Verdict(Resting(), m, remaining) == Verdict(book, m, remaining)
      ensures m.orderId !in activeOrders && forall id | id in activeOrders :: id < m.orderId
    {
      FillShrinks(run, book, m, m.quantity, 0);
      AggregateUntouched(book, Resting(), m.instrumentId, MakerSide(m), TakerSide(m), m.price);
      hide Aggregate, Fill, Consistent;
      forall id | id in activeOrders
        ensures id in book
      {
        assert id in Resting();
      }
    }

    method ProcessCancel(m: Message) returns (reply: Reply)
      requires Valid() && m.kind.CANCEL? && m.clientCommandId.Some?
      modifies this`orderBooks, this`activeOrders
      ensures Valid()
      ensures Agrees(reply, Resting(), old(Resting()), ApplyCancel(run, old(Resting()), m))
      ensures Refused(reply) ==> unchanged(this)
    {
      if m.instrumentId == 0 || m.targetOrderId.None? {
        return Threw(IncompleteCancel);
      }
      if m.orderId != 0 {
        return Threw(UnexpectedOrderId);
      }
      var target := m.targetOrderId.value;
      if target !in activeOrders {
        return Replied(Batch(CorrelationOf(run, m), Applied, [Rejection(run, m, CancelCommand, target, OrderNotActive)]));
      }
      var order := activeOrders[target];
      if order.owner != m.clientId {
        return Replied(Batch(CorrelationOf(run, m), Applied, [Rejection(run, m, CancelCommand, target, NotOwner)]));
      }
      if order.instrument != m.instrumentId {
        return Threw(WrongInstrument);
      }
      var event := OrderCancelled(EventId(m.sequence, 0, run), target, order.owner, order.instrument, order.remaining,
                                  ClientRequested);
      RemoveCancelledOrder(target);
      reply := Replied(Batch(CorrelationOf(run, m), Applied, [event]));
    }

    /**
     * One command, start to finish. The state afterwards and the reply are those of the price-time specification;
     * a command that throws or is rejected leaves books, index and every node as they were.
     */
    method ProcessCommand(m: Message) returns (reply: Reply)
      requires Valid()
      requires IsNewOrder(m) ==> m.orderId in activeOrders || forall id | id in activeOrders :: id < m.orderId
      modifies this, nodes
      ensures Valid() && fresh(nodes - old(nodes))
      ensures Positive(old(Resting()))
      ensures Agrees(reply, Resting(), old(Resting()), Apply(run, old(Resting()), m))
      ensures Refused(reply) ==> unchanged(this) && unchanged(old(nodes))
    {
      hide Consistent, Fill, ApplyNewOrder, ApplyCancel;
      RestingPositive();
      if IsNewOrder(m) && m.clientCommandId.Some? {
        RefusedUnplanned(run, Resting(), m);
      }
      if m.clientId == 0 || m.clientCommandId.None? || m.sequence == 0 {
        return Threw(MissingCorrelation);
      }
      match m.kind {
        case BUY | SELL =>
          if m.tif != GTC && m.tif != IOC {
            return Threw(UnsupportedTimeInForce);
          }
          if m.orderId in activeOrders {
            return Threw(DuplicateOrderId);
          }
          reply := ProcessOrder(m);
        case CANCEL =>
          reply := ProcessCancel(m);
        case CANCELREJ =>
          reply := Threw(UnsupportedType);
      }
    }

    ghost function SideIds(instrument: u64, side: Side): set<u64>
      reads this
    {
      set id | id in activeOrders && OnSide(activeOrders[id], instrument, side)
    }

    ghost function IdsOutside(instruments: set<u64>): set<u64>
      reads this
    {
      set id | id in activeOrders && activeOrders[id].instrument in orderBooks.Keys - instruments
    }

    lemma SeenWith(pending: set<u64>, instrument: u64, seen: set<u64>)
      requires instrument in pending && pending <= orderBooks.Keys && seen == IdsOutside(pending)
      ensures var bids, asks := SideIds(instrument, Buy), SideIds(instrument, Sell);
              && seen + bids + asks == IdsOutside(pending - {instrument})
              && |seen + bids + asks| == |seen| + |bids| + |asks|
    {
      var bids, asks := SideIds(instrument, Buy), SideIds(instrument, Sell);
      assert seen !! bids && (seen + bids) !! asks;
      assert forall id | id in activeOrders && activeOrders[id].instrument == instrument :: id in bids || id in asks;
    }

    /** What the self-check demands of a level: no node without its own matching entry, and the wrapped sum as total. */
    /** The checks made of one node: a quantity, and an index entry that repeats every field and points back at it. */
    predicate NodePasses(instrument: u64, side: Side, price: u64, node: OrderNode)
      reads this, node
    {
      && node.remaining != 0
      && node.orderId in activeOrders
      && activeOrders[node.orderId] == ActiveOrder(node.owner, instrument, side, price, node.remaining, node)
    }

    ghost predicate LevelPasses(instrument: u64, side: Side, level: PriceLevel)
      reads this, level.orders
    {
      && level.orders != []
      && (forall k | 0 <= k < |level.orders| :: NodePasses(instrument, side, level.price, level.orders[k]))
      && level.total == SumOf(level.orders, activeOrders) % U64_LIMIT
    }

    ghost predicate SidePasses(instrument: u64, side: Side)
      reads *
    {
      forall i | 0 <= i < |Levels(orderBooks, instrument, side)| ::
        LevelPasses(instrument, side, Levels(orderBooks, instrument, side)[i])
    }

    ghost predicate BookPasses(instrument: u64)
      requires instrument in orderBooks
      reads *
    {
      && (orderBooks[instrument].bids != [] || orderBooks[instrument].asks != [])
      && SidePasses(instrument, Buy) && SidePasses(instrument, Sell)
    }

    /**
     * The run-time check of the invariant: a valid state always passes it, and a state that passes has every node
     * indexed where it is, every total equal to its sum, nothing empty, and as many nodes as entries.
     */
    method InvariantsHold() returns (ok: bool)
      ensures Valid() ==> ok
      ensures ok ==> forall instrument | instrument in orderBooks :: BookPasses(instrument)
      ensures ok ==> NodeCount(orderBooks) == |activeOrders|
    {
      hide Consistent, Levels, SideIds, IdsOutside, SidePasses, BookPasses, Nodes, NodeCount, Among;
      NoBooks(orderBooks);
      NothingSeen();
      ghost var valid := Valid();
      var nodeCount := 0;
      ghost var seen: set<u64> := {};
      var pending := orderBooks.Keys;
      while pending != {}
        invariant pending <= orderBooks.Keys
        invariant valid ==> seen == IdsOutside(pending)
        invariant valid ==> |seen| == nodeCount
        invariant forall instrument | instrument in orderBooks.Keys - pending :: BookPasses(instrument)
        invariant nodeCount + NodeCount(Among(orderBooks, pending)) == NodeCount(orderBooks)
      {
        var instrument :| instrument in pending;
        if orderBooks[instrument].bids == [] && orderBooks[instrument].asks == [] {
          assert !valid by {
            if valid {
              BookIsNotEmpty(orderBooks, activeOrders, instrument);
            }
          }
          return false;
        }
        ghost var bids, asks := SideIds(instrument, Buy), SideIds(instrument, Sell);
        var bidsOk, bidCount := CheckSide(instrument, Buy);
        if !bidsOk {
          return false;
        }
        var asksOk, askCount := CheckSide(instrument, Sell);
        if !asksOk {
          return false;
        }
        nodeCount := nodeCount + bidCount + askCount;
        CountOne(orderBooks, pending, instrument);
        MakeBookPasses(instrument);
        if valid {
          SeenWith(pending, instrument, seen);
        }
        seen := seen + bids + asks;
        pending := pending - {instrument};
      }
      if valid {
        AllSeen();
      }
      ok := nodeCount == |activeOrders|;
    }

    lemma NothingSeen()
      ensures IdsOutside(orderBooks.Keys) == {}
    {
    }

    lemma AllSeen()
      requires Valid()
      ensures IdsOutside({}) == activeOrders.Keys
    {
      hide Consistent;
      forall id | id in activeOrders
        ensures id in IdsOutside({})
      {
        BookOfEntry(orderBooks, activeOrders, id);
      }
    }

    lemma MakeBookPasses(instrument: u64)
      requires instrument in orderBooks && (orderBooks[instrument].bids != [] || orderBooks[instrument].asks != [])
      requires SidePasses(instrument, Buy) && SidePasses(instrument, Sell)
      ensures BookPasses(instrument)
    {
      hide SidePasses;
    }

    /** Checks one side of one instrument and counts its nodes. */
    method CheckSide(instrument: u64, side: Side) returns (ok: bool, count: nat)
      ensures Valid() ==> ok && count == |SideIds(instrument, side)|
      ensures ok ==> SidePasses(instrument, side) && count == Nodes(Levels(orderBooks, instrument, side))
    {
      hide Consistent, Levels, SideIds, LevelPasses;
      ghost var valid := Valid();
      var levels := Levels(orderBooks, instrument, side);
      ghost var ids: set<u64> := {};
      assert Consumed(levels, 0, 0, ids);
      hide Consumed;
      count := 0;
      for i := 0 to |levels|
        invariant valid ==> Consumed(levels, i, 0, ids) && |ids| == count
        invariant forall j | 0 <= j < i :: LevelPasses(instrument, side, levels[j])
        invariant count == Nodes(levels[..i])
      {
        assert levels[..i + 1][..i] == levels[..i];
        var levelOk, nodes;
        levelOk, nodes, ids := CheckLevel(instrument, side, i, ids);
        if !levelOk {
          return false, 0;
        }
        count := count + nodes;
      }
      if valid {
        AllListed(instrument, side, ids);
      }
      assert levels[..|levels|] == levels;
      ok := true;
    }

    /** Checks one price level: every node indexed where it is, and the total their sum. */
    method CheckLevel(instrument: u64, side: Side, i: nat, ghost before: set<u64>)
      returns (ok: bool, count: nat, ghost ids: set<u64>)
      requires i < |Levels(orderBooks, instrument, side)|
      ensures Valid() && Consumed(Levels(orderBooks, instrument, side), i, 0, before) ==>
                && ok
                && Consumed(Levels(orderBooks, instrument, side), i + 1, 0, ids)
                && |ids| == |before| + count
      ensures ok ==>
                && LevelPasses(instrument, side, Levels(orderBooks, instrument, side)[i])
                && count == |Levels(orderBooks, instrument, side)[i].orders|
    {
      hide Consistent, Levels, Consumed, SumOf, LevelOk, NodePasses;
      var levels := Levels(orderBooks, instrument, side);
      ghost var valid := Valid() && Consumed(levels, i, 0, before);
      ids, count := before, 0;
      var orders := levels[i].orders;
      if valid {
        LevelSum(orderBooks, activeOrders, instrument, side, i);
      }
      if orders == [] {
        return false, 0, ids;
      }
      var total: u64 := 0;
      var k := 0;
      SumOneMore(orders, 0, activeOrders);
      assert orders[..0] == [];
      while k < |orders|
        invariant 0 <= k <= |orders|
        invariant valid ==> Consumed(levels, i, k, ids) && |ids| == |before| + count
        invariant valid ==> total == SumOf(orders[..k], activeOrders)
        invariant count == k && total == SumOf(orders[..k], activeOrders) % U64_LIMIT
        invariant forall j | 0 <= j < k :: NodePasses(instrument, side, levels[i].price, orders[j])
      {
        SumOneMore(orders, k, activeOrders);
        var node := orders[k];
        if valid {
          NodeChecks(instrument, side, i, k, ids);
        }
        if !NodePasses(instrument, side, levels[i].price, node) {
          return false, 0, ids;
        }
        PassedQuantity(instrument, side, levels[i].price, node);
        count := count + 1;
        total := (total + node.remaining) % U64_LIMIT;
        ids := ids + {node.orderId};
        k := k + 1;
      }
      assert orders[..k] == orders;
      if total != levels[i].total {
        return false, 0, ids;
      }
      if valid {
        ConsumeLevel(levels, i, ids);
      }
      ok := true;
    }

    lemma PassedQuantity(instrument: u64, side: Side, price: u64, node: OrderNode)
      requires NodePasses(instrument, side, price, node)
      ensures Remaining(activeOrders, node) == node.remaining
    {
    }

    lemma NodeChecks(instrument: u64, side: Side, i: nat, k: nat, ids: set<u64>)
      requires Valid()
      requires var levels := Levels(orderBooks, instrument, side);
               i < |levels| && k < |levels[i].orders| && Consumed(levels, i, k, ids)
      ensures var level := Levels(orderBooks, instrument, side)[i];
              var node := level.orders[k];
              && NodePasses(instrument, side, level.price, node)
              && node.orderId !in ids
              && Consumed(Levels(orderBooks, instrument, side), i, k + 1, ids + {node.orderId})
              && SumOf(level.orders[..k + 1], activeOrders) == SumOf(level.orders[..k], activeOrders) + node.remaining
              && SumOf(level.orders[..k + 1], activeOrders) < U64_LIMIT
    {
      hide Consistent, Levels, Consumed, LevelOk;
      var levels := Levels(orderBooks, instrument, side);
      ListedIsIndexed(orderBooks, activeOrders, instrument, side, i, k);
      NotConsumed(orderBooks, activeOrders, instrument, side, i, k, ids);
      LevelOf(orderBooks, activeOrders, instrument, side, i);
      PartialSum(levels[i], instrument, side, activeOrders, k);
      ConsumeOne(levels, i, k, ids);
    }

    lemma AllListed(instrument: u64, side: Side, ids: set<u64>)
      requires Valid()
      requires var levels := Levels(orderBooks, instrument, side); Consumed(levels, |levels|, 0, ids)
      ensures ids == SideIds(instrument, side)
    {
      hide Consistent, Levels;
      NothingLeft(orderBooks, activeOrders, instrument, side, ids);
      forall id | id in SideIds(instrument, side)
        ensures id in ids
      {
        assert !Competes(Resting() - ids, instrument, side, id);
      }
      var levels := Levels(orderBooks, instrument, side);
      forall id | id in ids
        ensures id in SideIds(instrument, side)
      {
        var i, k :| Before(levels, i, k, |levels|, 0) && levels[i].orders[k].orderId == id;
        ListedIsIndexed(orderBooks, activeOrders, instrument, side, i, k);
      }
    }
  }

  lemma SumOneMore(orders: seq<OrderNode>, k: nat, index: Index)
    requires k < |orders|
    ensures SumOf(orders[..k + 1], index) == SumOf(orders[..k], index) + Remaining(index, orders[k])
    ensures SumOf([], index) == 0
  {
    assert orders[..k + 1] == orders[..k] + [orders[k]];
    SumConcat(orders[..k], [orders[k]], index);
  }

  function Nodes(levels: seq<PriceLevel>): nat {
    if levels == [] then 0 else Nodes(levels[..|levels| - 1]) + |levels[|levels| - 1].orders|
  }

  ghost function NodeCount(books: Books): nat
    decreases |books|
  {
    if books == map[] then 0
    else
      var instrument :| instrument in books;
      Nodes(books[instrument].bids) + Nodes(books[instrument].asks) + NodeCount(books - {instrument})
  }

  function Among(books: Books, instruments: set<u64>): Books {
    map instrument | instrument in books && instrument in instruments :: books[instrument]
  }

  lemma {:induction false} CountWithout(books: Books, instrument: u64)
    requires instrument in books
    ensures NodeCount(books) ==
            Nodes(books[instrument].bids) + Nodes(books[instrument].asks) + NodeCount(books - {instrument})
    decreases |books|
  {
    hide Nodes;
    var chosen :| chosen in books &&
      NodeCount(books) == Nodes(books[chosen].bids) + Nodes(books[chosen].asks) + NodeCount(books - {chosen});
    if chosen != instrument {
      CountWithout(books - {chosen}, instrument);
      CountWithout(books - {instrument}, chosen);
      assert books - {chosen} - {instrument} == books - {instrument} - {chosen};
    }
  }

  lemma CountOne(books: Books, pending: set<u64>, instrument: u64)
    requires instrument in pending && instrument in books
    ensures NodeCount(Among(books, pending)) ==
            Nodes(Levels(books, instrument, Buy)) + Nodes(Levels(books, instrument, Sell)) +
            NodeCount(Among(books, pending - {instrument}))
  {
    hide Nodes, NodeCount;
    CountWithout(Among(books, pending), instrument);
    assert Among(books, pending) - {instrument} == Among(books, pending - {instrument});
  }

  lemma NoBooks(books: Books)
    ensures Among(books, books.Keys) == books && NodeCount(Among(books, {})) == 0
  {
    assert Among(books, {}) == map[];
  }

  lemma LevelSum(books: Books, index: Index, instrument: u64, side: Side, i: nat)
    requires Consistent(books, index) && i < |Levels(books, instrument, side)|
    ensures var level := Levels(books, instrument, side)[i];
            level.orders != [] && level.total == SumOf(level.orders, index) && SumOf([], index) == 0
  {
    LevelOf(books, index, instrument, side, i);
  }

  lemma LevelOf(books: Books, index: Index, instrument: u64, side: Side, i: nat)
    requires Consistent(books, index) && i < |Levels(books, instrument, side)|
    ensures LevelOk(Levels(books, instrument, side)[i], instrument, side, index)
  {
    SideOf(books, index, instrument, side);
  }

  lemma BookIsNotEmpty(books: Books, index: Index, instrument: u64)
    requires Consistent(books, index) && instrument in books
    ensures books[instrument].bids != [] || books[instrument].asks != []
  {
  }

  lemma BookOfEntry(books: Books, index: Index, id: u64)
    requires Consistent(books, index) && id in index
    ensures index[id].instrument in books
  {
    assert EntryOk(books, id, index[id]);
  }

  lemma PartialSum(level: PriceLevel, instrument: u64, side: Side, index: Index, k: nat)
    requires LevelOk(level, instrument, side, index) && k < |level.orders|
    ensures SumOf(level.orders[..k + 1], index) == SumOf(level.orders[..k], index) + Remaining(index, level.orders[k])
    ensures SumOf(level.orders[..k + 1], index) <= level.total
  {
    assert level.orders[..k + 1] == level.orders[..k] + [level.orders[k]];
    SumConcat(level.orders[..k], [level.orders[k]], index);
    assert SumOf([level.orders[k]], index) == Remaining(index, level.orders[k]) + SumOf([], index);
    assert level.orders == level.orders[..k + 1] + level.orders[k + 1..];
    SumConcat(level.orders[..k + 1], level.orders[k + 1..], index);
  }

  datatype CapacityVerdict = HasRoom | Exceeds | UnknownInstrument

  ghost function Verdict(b: Book, m: Message, quantity: u64): CapacityVerdict {
    var configuration := FindByIdentity(m.instrumentId, m.configurationVersion);
    if quantity == 0 then HasRoom
    else if configuration.None? then UnknownInstrument
    else if Aggregate(b, m.instrumentId, TakerSide(m), m.price) + quantity
            > configuration.value.maxPriceLevelAggregate then Exceeds
    else HasRoom
  }

  /** The reply and the resting orders afterwards are what the specification says. */
  ghost predicate Agrees(reply: Reply, after: Book, before: Book, spec: Outcome) {
    match spec
    case Thrown(error) => reply == Threw(error) && after == before
    case Done(book, batch) => reply == Replied(batch) && after == book
  }

  lemma AllPositive(books: Books, index: Index)
    requires Consistent(books, index)
    ensures forall id | id in index :: index[id].remaining > 0
  {
    assert forall id | id in index :: EntryOk(books, id, index[id]);
  }

  lemma FirstLevel(books: Books, index: Index, instrument: u64, side: Side)
    requires Consistent(books, index) && Levels(books, instrument, side) != []
    ensures var level := Levels(books, instrument, side)[0];
            level.orders != [] && Remaining(index, level.orders[0]) <= level.total
  {
    SideOf(books, index, instrument, side);
    hide Consistent, Levels;
    var level := Levels(books, instrument, side)[0];
    assert LevelOk(level, instrument, side, index);
    SumWithout(level.orders, 0, index);
  }

  lemma SetSideTwice(books: Books, instrument: u64, side: Side, first: seq<PriceLevel>, second: seq<PriceLevel>)
    ensures SetSide(SetSide(books, instrument, side, first), instrument, side, second) ==
            SetSide(books, instrument, side, second)
  {
  }

  lemma {:induction false} FindLightened(levels: seq<PriceLevel>, price: u64, quantity: u64)
    requires Find(levels, price) < |levels| && quantity <= levels[Find(levels, price)].total
    ensures Find(Lighten(levels, Find(levels, price), quantity), price) == Find(levels, price)
  {
    var i := Find(levels, price);
    var lighter := Lighten(levels, i, quantity);
    assert forall j | 0 <= j < |levels| :: lighter[j].price == levels[j].price;
    var found := Find(lighter, price);
    assert !(found < i) && !(i < found);
  }

  /** A level of one order has exactly that order's quantity as its total, a longer one has more. */
  lemma SoleOrderTotal(level: PriceLevel, instrument: u64, side: Side, index: Index, k: nat)
    requires LevelOk(level, instrument, side, index) && k < |level.orders|
    ensures Remaining(index, level.orders[k]) <= level.total
    ensures |level.orders| == 1 ==> level.total == Remaining(index, level.orders[k])
    ensures |level.orders| > 1 && (forall id | id in index :: index[id].remaining > 0) ==>
              Remaining(index, level.orders[k]) < level.total
  {
    SumWithout(level.orders, k, index);
    var rest := Without(level.orders, k);
    if |level.orders| > 1 {
      assert rest[0] in level.orders;
      assert Indexes(index, rest[0], instrument, side, level.price);
    }
  }
}
