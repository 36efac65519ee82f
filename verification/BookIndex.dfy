/**
 * The two structures the matching engine keeps over the same order nodes: sorted price levels with a FIFO list per
 * level, and an index by order id. Everything here is about references and values only, so that the invariant tying
 * the two together is independent of the mutable quantity inside a node.
 */
module BookIndex {
  import opened LittleEndian
  import opened Domain
  import opened PriceTime

  /** A list node; both the level's list and the index hold references to it. */
  class OrderNode {
    const orderId: u64
    const owner: u64
    var remaining: u64

    constructor (orderId: u64, owner: u64, remaining: u64)
      ensures this.orderId == orderId && this.owner == owner && this.remaining == remaining
    {
      this.orderId, this.owner, this.remaining := orderId, owner, remaining;
    }
  }

  datatype PriceLevel = PriceLevel(price: u64, total: u64, orders: seq<OrderNode>)

  /** Levels are kept best first: descending bids, ascending asks. */
  datatype InstrumentBook = InstrumentBook(bids: seq<PriceLevel>, asks: seq<PriceLevel>)

  datatype ActiveOrder = ActiveOrder(
    owner: u64, instrument: u64, side: Side, price: u64, remaining: u64, location: OrderNode)

  type Books = map<u64, InstrumentBook>
  type Index = map<u64, ActiveOrder>

  const MAX_AGGREGATE: u64 := SPY_V1.maxPriceLevelAggregate

  function Levels(books: Books, instrument: u64, side: Side): seq<PriceLevel> {
    if instrument !in books then [] else if side.Buy? then books[instrument].bids else books[instrument].asks
  }

  predicate Better(side: Side, price: u64, other: u64) {
    if side.Buy? then price > other else price < other
  }

  // ----- The invariant

  /** The index entry of `node` points back at `node` and agrees with where the node is. */
  ghost predicate Indexes(index: Index, node: OrderNode, instrument: u64, side: Side, price: u64) {
    && node.orderId in index
    && index[node.orderId].location == node
    && index[node.orderId].owner == node.owner
    && index[node.orderId].instrument == instrument
    && index[node.orderId].side == side
    && index[node.orderId].price == price
  }

  function Remaining(index: Index, node: OrderNode): nat {
    if node.orderId in index then index[node.orderId].remaining else 0
  }

  function SumOf(orders: seq<OrderNode>, index: Index): nat {
    if orders == [] then 0 else Remaining(index, orders[0]) + SumOf(orders[1..], index)
  }

  ghost predicate LevelOk(level: PriceLevel, instrument: u64, side: Side, index: Index) {
    && level.orders != []
    && (forall k | 0 <= k < |level.orders| :: Indexes(index, level.orders[k], instrument, side, level.price))
    && (forall j, k | 0 <= j < k < |level.orders| :: level.orders[j].orderId < level.orders[k].orderId)
    && level.total == SumOf(level.orders, index)
    && level.total <= MAX_AGGREGATE
  }

  ghost predicate SideOk(levels: seq<PriceLevel>, instrument: u64, side: Side, index: Index) {
    && (forall i | 0 <= i < |levels| :: LevelOk(levels[i], instrument, side, index))
    && (forall i, j | 0 <= i < j < |levels| :: Better(side, levels[i].price, levels[j].price))
  }

  ghost predicate At(levels: seq<PriceLevel>, i: nat, k: nat, node: OrderNode) {
    i < |levels| && k < |levels[i].orders| && levels[i].orders[k] == node
  }

  ghost predicate Located(levels: seq<PriceLevel>, order: ActiveOrder) {
    exists i: nat, k: nat :: At(levels, i, k, order.location) && levels[i].price == order.price
  }

  ghost predicate EntryOk(books: Books, id: u64, order: ActiveOrder) {
    && order.location.orderId == id
    && order.remaining > 0
    && Located(Levels(books, order.instrument, order.side), order)
  }

  /** Book and index describe the same orders, level totals are sums, and nothing empty is kept. */
  ghost predicate Consistent(books: Books, index: Index) {
    && (forall instrument, side {:trigger Levels(books, instrument, side)} ::
          SideOk(Levels(books, instrument, side), instrument, side, index))
    && (forall id | id in index :: EntryOk(books, id, index[id]))
    && (forall instrument | instrument in books ::
          books[instrument].bids != [] || books[instrument].asks != [])
  }

  /** The resting orders, forgetting the data structures. */
  function Abs(index: Index): Book {
    map id | id in index ::
      Resting(index[id].owner, index[id].instrument, index[id].side, index[id].price, index[id].remaining)
  }

  // ----- Container operations of the standard library, on values

  /** Position of the level with this price, or the number of levels. */
  function Find(levels: seq<PriceLevel>, price: u64): (i: nat)
    ensures i <= |levels|
    ensures i < |levels| ==> levels[i].price == price
    ensures forall j | 0 <= j < i :: levels[j].price != price
  {
    if levels == [] || levels[0].price == price then 0 else 1 + Find(levels[1..], price)
  }

  /** Position of a node in its list, or the length of the list. */
  function Position(orders: seq<OrderNode>, node: OrderNode): (k: nat)
    ensures k <= |orders|
    ensures k < |orders| ==> orders[k] == node
    ensures forall j | 0 <= j < k :: orders[j] != node
  {
    if orders == [] || orders[0] == node then 0 else 1 + Position(orders[1..], node)
  }

  /** Where a level of this price belongs. */
  function Slot(side: Side, levels: seq<PriceLevel>, price: u64): (i: nat)
    ensures i <= |levels|
    ensures forall j | 0 <= j < i :: Better(side, levels[j].price, price)
    ensures i < |levels| ==> !Better(side, levels[i].price, price)
  {
    if levels == [] || !Better(side, levels[0].price, price) then 0 else 1 + Slot(side, levels[1..], price)
  }

  /** Replaces one side of one instrument's book, dropping the book when nothing is left in it. */
  function SetSide(books: Books, instrument: u64, side: Side, levels: seq<PriceLevel>): Books {
    var current := if instrument in books then books[instrument] else InstrumentBook([], []);
    var updated := if side.Buy? then current.(bids := levels) else current.(asks := levels);
    if updated.bids == [] && updated.asks == [] then books - {instrument} else books[instrument := updated]
  }

  lemma LevelsOfSetSide(books: Books, instrument: u64, side: Side, levels: seq<PriceLevel>, i: u64, s: Side)
    ensures Levels(SetSide(books, instrument, side, levels), i, s) ==
            if (i, s) == (instrument, side) then levels else Levels(books, i, s)
  {
  }

  function Without<T>(s: seq<T>, k: nat): seq<T>
    requires k < |s|
  {
    s[..k] + s[k + 1..]
  }

  /** Takes `quantity` off the total of level `i`. */
  function Lighten(levels: seq<PriceLevel>, i: nat, quantity: u64): seq<PriceLevel>
    requires i < |levels| && quantity <= levels[i].total
  {
    levels[i := levels[i].(total := levels[i].total - quantity)]
  }

  /** Unlinks order `k` of level `i`, dropping the level with its last order. */
  function Unlink(levels: seq<PriceLevel>, i: nat, k: nat): seq<PriceLevel>
    requires i < |levels| && k < |levels[i].orders|
  {
    if |levels[i].orders| == 1 then Without(levels, i)
    else levels[i := levels[i].(orders := Without(levels[i].orders, k))]
  }

  /** The levels with a new one at position `slot`. */
  function Inserted(levels: seq<PriceLevel>, slot: nat, level: PriceLevel): (r: seq<PriceLevel>)
    requires slot <= |levels|
    ensures |r| == |levels| + 1
    ensures forall j | 0 <= j < slot :: r[j] == levels[j]
    ensures r[slot] == level
    ensures forall j | slot < j < |r| :: r[j] == levels[j - 1]
  {
    levels[..slot] + [level] + levels[slot..]
  }

  /** Appends an order to the level of its price, creating the level if there is none. */
  function Append(side: Side, levels: seq<PriceLevel>, price: u64, node: OrderNode, quantity: u64): seq<PriceLevel>
    requires forall i | 0 <= i < |levels| :: levels[i].price == price ==> levels[i].total + quantity < U64_LIMIT
  {
    var i := Slot(side, levels, price);
    if i < |levels| && levels[i].price == price then
      levels[i := PriceLevel(price, levels[i].total + quantity, levels[i].orders + [node])]
    else
      Inserted(levels, i, PriceLevel(price, quantity, [node]))
  }

  // ----- Sums

  lemma {:induction false} SumConcat(a: seq<OrderNode>, b: seq<OrderNode>, index: Index)
    ensures SumOf(a + b, index) == SumOf(a, index) + SumOf(b, index)
  {
    if a == [] {
      assert a + b == b;
    } else {
      assert (a + b)[1..] == a[1..] + b;
      SumConcat(a[1..], b, index);
    }
  }

  lemma SumWithout(orders: seq<OrderNode>, k: nat, index: Index)
    requires k < |orders|
    ensures SumOf(orders, index) == SumOf(Without(orders, k), index) + Remaining(index, orders[k])
  {
    assert orders == orders[..k] + ([orders[k]] + orders[k + 1..]);
    SumConcat(orders[..k], [orders[k]] + orders[k + 1..], index);
    SumConcat([orders[k]], orders[k + 1..], index);
    SumConcat(orders[..k], orders[k + 1..], index);
    assert SumOf([orders[k]], index) == Remaining(index, orders[k]) + SumOf([], index);
  }

  lemma {:induction false} SumFrame(orders: seq<OrderNode>, index: Index, index': Index)
    requires forall k | 0 <= k < |orders| :: Remaining(index, orders[k]) == Remaining(index', orders[k])
    ensures SumOf(orders, index) == SumOf(orders, index')
  {
    if orders != [] {
      SumFrame(orders[1..], index, index');
    }
  }

  /** The indexed sum of a list is the total quantity of the orders it lists. */
  lemma {:induction false} SumIsQuantity(orders: seq<OrderNode>, index: Index, b: Book)
    requires forall k | 0 <= k < |orders| :: orders[k].orderId in b
    requires forall id | id in b :: exists k :: 0 <= k < |orders| && orders[k].orderId == id
    requires forall j, k | 0 <= j < k < |orders| :: orders[j].orderId < orders[k].orderId
    requires forall id | id in b :: id in index && b[id].quantity == index[id].remaining
    ensures SumOf(orders, index) == Quantity(b)
  {
    hide Quantity;
    if orders != [] {
      var id := orders[0].orderId;
      QuantityRemove(b, id);
      forall other | other in b - {id}
        ensures exists k :: 0 <= k < |orders[1..]| && orders[1..][k].orderId == other
      {
        var k :| 0 <= k < |orders| && orders[k].orderId == other;
        assert orders[1..][k - 1].orderId == other;
      }
      SumIsQuantity(orders[1..], index, b - {id});
    } else {
      assert b == map[];
      QuantityOfNothing();
    }
  }

  // ----- Consequences of the invariant

  /** An indexed order sits at exactly one place, and that place is the one its entry names. */
  lemma WhereIs(books: Books, index: Index, id: u64) returns (i: nat, k: nat)
    requires Consistent(books, index) && id in index
    ensures var order := index[id];
            var levels := Levels(books, order.instrument, order.side);
            && At(levels, i, k, order.location)
            && levels[i].price == order.price
            && i == Find(levels, order.price)
            && k == Position(levels[i].orders, order.location)
            && LevelOk(levels[i], order.instrument, order.side, index)
            && SideOk(levels, order.instrument, order.side, index)
            && order.location.orderId == id && order.remaining > 0
  {
    var order := index[id];
    var levels := Levels(books, order.instrument, order.side);
    SideOf(books, index, order.instrument, order.side);
    assert EntryOk(books, id, order);
    hide Consistent, Levels;
    i, k :| At(levels, i, k, order.location) && levels[i].price == order.price;
    OnlyOneLevel(levels, order.instrument, order.side, index, order.price);
    OnlyOnePosition(levels[i], order.instrument, order.side, index, k);
  }

  lemma OnlyOnePosition(level: PriceLevel, instrument: u64, side: Side, index: Index, k: nat)
    requires LevelOk(level, instrument, side, index) && k < |level.orders|
    ensures Position(level.orders, level.orders[k]) == k
  {
    var p := Position(level.orders, level.orders[k]);
  }

  /** The orders resting at a price are exactly those its level lists. */
  lemma LevelLists(books: Books, index: Index, instrument: u64, side: Side, price: u64, id: u64)
    requires Consistent(books, index)
    requires id in index && index[id].instrument == instrument && index[id].side == side && index[id].price == price
    ensures var levels := Levels(books, instrument, side);
            var i := Find(levels, price);
            i < |levels| && exists k :: 0 <= k < |levels[i].orders| && levels[i].orders[k].orderId == id
  {
    var i, k := WhereIs(books, index, id);
    assert EntryOk(books, id, index[id]);
    assert Levels(books, instrument, side)[i].orders[k].orderId == id;
  }

  /** A level's stored total is the aggregate of the orders resting at that price. */
  lemma TotalIsAggregate(books: Books, index: Index, instrument: u64, side: Side, price: u64)
    requires Consistent(books, index)
    ensures var levels := Levels(books, instrument, side);
            var i := Find(levels, price);
            Aggregate(Abs(index), instrument, side, price) == if i < |levels| then levels[i].total else 0
  {
    var levels := Levels(books, instrument, side);
    var i := Find(levels, price);
    var resting := AtLevel(Abs(index), instrument, side, price);
    forall id | id in resting
      ensures i < |levels| && exists k :: 0 <= k < |levels[i].orders| && levels[i].orders[k].orderId == id
    {
      LevelLists(books, index, instrument, side, price, id);
    }
    if i < |levels| {
      assert LevelOk(levels[i], instrument, side, index) by {
        assert SideOk(levels, instrument, side, index);
      }
      ListedTotal(levels[i], instrument, side, index);
    } else {
      assert resting == map[];
    }
  }

  lemma ListedTotal(level: PriceLevel, instrument: u64, side: Side, index: Index)
    requires LevelOk(level, instrument, side, index)
    requires forall id | id in AtLevel(Abs(index), instrument, side, level.price) ::
               exists k :: 0 <= k < |level.orders| && level.orders[k].orderId == id
    ensures Aggregate(Abs(index), instrument, side, level.price) == level.total
  {
    var resting := AtLevel(Abs(index), instrument, side, level.price);
    forall k | 0 <= k < |level.orders|
      ensures level.orders[k].orderId in resting
    {
      assert Indexes(index, level.orders[k], instrument, side, level.price);
    }
    SumIsQuantity(level.orders, index, resting);
  }

  // ----- Every change the engine makes keeps the invariant

  /** A level without order `id` does not care what happens to entry `id`. */
  lemma LevelFrame(level: PriceLevel, instrument: u64, side: Side, index: Index, index': Index, id: u64)
    requires LevelOk(level, instrument, side, index)
    requires forall other | other in index && other != id :: other in index' && index'[other] == index[other]
    requires forall k | 0 <= k < |level.orders| :: level.orders[k].orderId != id
    ensures LevelOk(level, instrument, side, index')
  {
    SumFrame(level.orders, index, index');
  }

  ghost predicate SameExcept(index: Index, index': Index, id: u64) {
    && (forall other | other in index && other != id :: other in index' && index'[other] == index[other])
    && (forall other | other in index' && other != id :: other in index)
  }

  ghost predicate OnSide(order: ActiveOrder, instrument: u64, side: Side) {
    order.instrument == instrument && order.side == side
  }

  /** A change confined to one side of one book and one index entry only has to be checked there. */
  lemma SideChangeKeeps(books: Books, index: Index, index': Index, id: u64, instrument: u64, side: Side,
                        levels': seq<PriceLevel>)
    requires Consistent(books, index) && SameExcept(index, index', id)
    requires id in index ==> OnSide(index[id], instrument, side)
    requires SideOk(levels', instrument, side, index')
    requires forall other | other in index' && OnSide(index'[other], instrument, side) ::
               index'[other].location.orderId == other && index'[other].remaining > 0 && Located(levels', index'[other])
    requires id in index' ==> OnSide(index'[id], instrument, side)
    ensures Consistent(SetSide(books, instrument, side, levels'), index')
  {
    hide SideOk, EntryOk, Levels, SetSide;
    var books' := SetSide(books, instrument, side, levels');
    SidesAfterChange(books, index, index', id, instrument, side, levels');
    EntriesAfterChange(books, index, index', id, instrument, side, levels');
    NoEmptyBooks(books, instrument, side, levels');
  }

  lemma NoEmptyBooks(books: Books, instrument: u64, side: Side, levels: seq<PriceLevel>)
    requires forall i | i in books :: books[i].bids != [] || books[i].asks != []
    ensures var books' := SetSide(books, instrument, side, levels);
            forall i | i in books' :: books'[i].bids != [] || books'[i].asks != []
  {
  }

  lemma SidesAfterChange(books: Books, index: Index, index': Index, id: u64, instrument: u64, side: Side,
                         levels': seq<PriceLevel>)
    requires Consistent(books, index) && SameExcept(index, index', id)
    requires id in index ==> OnSide(index[id], instrument, side)
    requires SideOk(levels', instrument, side, index')
    ensures var books' := SetSide(books, instrument, side, levels');
            forall i: u64, s: Side {:trigger Levels(books', i, s)} :: SideOk(Levels(books', i, s), i, s, index')
  {
    hide *;
    var books' := SetSide(books, instrument, side, levels');
    forall i: u64, s: Side
      ensures SideOk(Levels(books', i, s), i, s, index')
    {
      LevelsOfSetSide(books, instrument, side, levels', i, s);
      SideElsewhere(books, index, index', id, instrument, side, i, s);
    }
  }

  lemma EntriesAfterChange(books: Books, index: Index, index': Index, id: u64, instrument: u64, side: Side,
                           levels': seq<PriceLevel>)
    requires Consistent(books, index) && SameExcept(index, index', id)
    requires forall other | other in index' && OnSide(index'[other], instrument, side) ::
               index'[other].location.orderId == other && index'[other].remaining > 0 && Located(levels', index'[other])
    requires id in index' ==> OnSide(index'[id], instrument, side)
    ensures var books' := SetSide(books, instrument, side, levels');
            forall other | other in index' :: EntryOk(books', other, index'[other])
  {
    hide SideOk, SetSide, Levels, Located;
    var books' := SetSide(books, instrument, side, levels');
    forall other | other in index'
      ensures EntryOk(books', other, index'[other])
    {
      LevelsOfSetSide(books, instrument, side, levels', index'[other].instrument, index'[other].side);
      if !OnSide(index'[other], instrument, side) {
        assert EntryOk(books, other, index[other]);
      }
    }
  }

  lemma SideElsewhere(books: Books, index: Index, index': Index, id: u64, instrument: u64, side: Side, i: u64, s: Side)
    requires Consistent(books, index) && SameExcept(index, index', id)
    requires id in index ==> OnSide(index[id], instrument, side)
    ensures (i, s) == (instrument, side) || SideOk(Levels(books, i, s), i, s, index')
  {
    if (i, s) != (instrument, side) {
      SideOf(books, index, i, s);
      hide Consistent, Levels;
      SideFrame(Levels(books, i, s), i, s, index, index', id);
    }
  }

  lemma SideFrame(levels: seq<PriceLevel>, instrument: u64, side: Side, index: Index, index': Index, id: u64)
    requires SideOk(levels, instrument, side, index) && SameExcept(index, index', id)
    requires id in index ==> !OnSide(index[id], instrument, side)
    ensures SideOk(levels, instrument, side, index')
  {
    forall j | 0 <= j < |levels|
      ensures LevelOk(levels[j], instrument, side, index')
    {
      assert LevelOk(levels[j], instrument, side, index);
      LevelFrame(levels[j], instrument, side, index, index', id);
    }
  }

  /** The other levels of a side are unaffected by a change to one entry. */
  lemma SiblingLevels(levels: seq<PriceLevel>, instrument: u64, side: Side, index: Index, index': Index, id: u64, i: nat)
    requires SideOk(levels, instrument, side, index) && SameExcept(index, index', id) && i < |levels|
    requires id in index ==> index[id].price == levels[i].price
    ensures forall j | 0 <= j < |levels| && j != i :: LevelOk(levels[j], instrument, side, index')
  {
    forall j | 0 <= j < |levels| && j != i
      ensures LevelOk(levels[j], instrument, side, index')
    {
      assert levels[j].price != levels[i].price by {
        assert Better(side, levels[j].price, levels[i].price) || Better(side, levels[i].price, levels[j].price);
      }
      LevelFrame(levels[j], instrument, side, index, index', id);
    }
  }

  lemma SameExceptPut(index: Index, id: u64, order: ActiveOrder)
    ensures SameExcept(index, index[id := order], id)
  {
  }

  lemma SideOf(books: Books, index: Index, instrument: u64, side: Side)
    requires Consistent(books, index)
    ensures SideOk(Levels(books, instrument, side), instrument, side, index)
  {
  }

  /** A partial fill: less quantity in the entry and in its level's total. */
  lemma ReduceKeeps(books: Books, index: Index, id: u64, quantity: u64)
    requires Consistent(books, index) && id in index && 0 < quantity < index[id].remaining
    ensures var order := index[id];
            var levels := Levels(books, order.instrument, order.side);
            var i := Find(levels, order.price);
            && i < |levels| && quantity <= levels[i].total
            && Consistent(SetSide(books, order.instrument, order.side, Lighten(levels, i, quantity)),
                          index[id := order.(remaining := order.remaining - quantity)])
  {
    hide Consistent, SideOk, LevelOk;
    var order := index[id];
    var levels := Levels(books, order.instrument, order.side);
    var i, k := WhereIs(books, index, id);
    ReduceSide(levels, index, id, quantity, i, k);
    var index' := index[id := order.(remaining := order.remaining - quantity)];
    var levels' := Lighten(levels, i, quantity);
    forall other | other in index' && OnSide(index'[other], order.instrument, order.side)
      ensures index'[other].location.orderId == other && index'[other].remaining > 0 && Located(levels', index'[other])
    {
      var i', k' := WhereIs(books, index, other);
      assert At(levels', i', k', index'[other].location);
    }
    SideChangeKeeps(books, index, index', id, order.instrument, order.side, levels');
  }

  lemma ReduceSide(levels: seq<PriceLevel>, index: Index, id: u64, quantity: u64, i: nat, k: nat)
    requires id in index && 0 < quantity < index[id].remaining
    requires SideOk(levels, index[id].instrument, index[id].side, index)
    requires At(levels, i, k, index[id].location) && levels[i].price == index[id].price
    requires index[id].location.orderId == id
    ensures quantity <= levels[i].total
    ensures SideOk(Lighten(levels, i, quantity), index[id].instrument, index[id].side,
                   index[id := index[id].(remaining := index[id].remaining - quantity)])
  {
    var index' := index[id := index[id].(remaining := index[id].remaining - quantity)];
    var orders := levels[i].orders;
    SumWithout(orders, k, index);
    SumWithout(orders, k, index');
    SumFrame(Without(orders, k), index, index');
    SiblingLevels(levels, index[id].instrument, index[id].side, index, index', id, i);
    assert LevelOk(Lighten(levels, i, quantity)[i], index[id].instrument, index[id].side, index');
  }

  /** Taking an order out: its node leaves the list, its entry the index, its quantity the total. */
  lemma RemoveKeeps(books: Books, index: Index, id: u64)
    requires Consistent(books, index) && id in index
    ensures var order := index[id];
            var levels := Levels(books, order.instrument, order.side);
            var i := Find(levels, order.price);
            && i < |levels| && order.remaining <= levels[i].total
            && var k := Position(levels[i].orders, order.location);
            && k < |levels[i].orders|
            && Consistent(SetSide(books, order.instrument, order.side,
                                  Unlink(Lighten(levels, i, order.remaining), i, k)),
                          index - {id})
  {
    hide Consistent, SideOk, LevelOk, Unlink;
    var order := index[id];
    var levels := Levels(books, order.instrument, order.side);
    var i, k := WhereIs(books, index, id);
    RemoveSide(levels, index, id, i, k);
    var index' := index - {id};
    var levels' := Unlink(Lighten(levels, i, order.remaining), i, k);
    forall other | other in index' && OnSide(index'[other], order.instrument, order.side)
      ensures index'[other].location.orderId == other && index'[other].remaining > 0 && Located(levels', index'[other])
    {
      var i', k' := WhereIs(books, index, other);
      StillLocated(levels, order.remaining, i, k, i', k', index[other]);
    }
    SideChangeKeeps(books, index, index', id, order.instrument, order.side, levels');
  }

  lemma StillLocated(levels: seq<PriceLevel>, quantity: u64, i: nat, k: nat, i': nat, k': nat, other: ActiveOrder)
    requires i < |levels| && quantity <= levels[i].total && k < |levels[i].orders|
    requires At(levels, i', k', other.location) && levels[i'].price == other.price && (i', k') != (i, k)
    ensures Located(Unlink(Lighten(levels, i, quantity), i, k), other)
  {
    var levels' := Unlink(Lighten(levels, i, quantity), i, k);
    if i' == i {
      assert At(levels', i, if k' < k then k' else k' - 1, other.location);
    } else if |levels[i].orders| == 1 {
      assert At(levels', if i' < i then i' else i' - 1, k', other.location);
    } else {
      assert At(levels', i', k', other.location);
    }
  }

  lemma RemoveSide(levels: seq<PriceLevel>, index: Index, id: u64, i: nat, k: nat)
    requires id in index
    requires SideOk(levels, index[id].instrument, index[id].side, index)
    requires At(levels, i, k, index[id].location) && levels[i].price == index[id].price
    requires index[id].location.orderId == id
    ensures index[id].remaining <= levels[i].total
    ensures SideOk(Unlink(Lighten(levels, i, index[id].remaining), i, k), index[id].instrument, index[id].side,
                   index - {id})
  {
    var index' := index - {id};
    SiblingLevels(levels, index[id].instrument, index[id].side, index, index', id, i);
    LevelAfterRemoval(levels[i], index, id, k);
    hide LevelOk;
  }

  lemma LevelAfterRemoval(level: PriceLevel, index: Index, id: u64, k: nat)
    requires id in index && LevelOk(level, index[id].instrument, index[id].side, index)
    requires k < |level.orders| && level.orders[k] == index[id].location && index[id].location.orderId == id
    ensures index[id].remaining <= level.total
    ensures |level.orders| > 1 ==>
              LevelOk(PriceLevel(level.price, level.total - index[id].remaining, Without(level.orders, k)),
                      index[id].instrument, index[id].side, index - {id})
  {
    var rest := Without(level.orders, k);
    SumWithout(level.orders, k, index);
    RestIsSorted(level.orders, k);
    hide Without;
    forall j | 0 <= j < |rest|
      ensures Indexes(index - {id}, rest[j], index[id].instrument, index[id].side, level.price)
    {
      assert rest[j] in level.orders;
    }
    SumFrame(rest, index, index - {id});
  }

  lemma RestIsSorted(orders: seq<OrderNode>, k: nat)
    requires k < |orders|
    requires forall i, j | 0 <= i < j < |orders| :: orders[i].orderId < orders[j].orderId
    ensures var rest := Without(orders, k);
            && |rest| == |orders| - 1
            && (forall i, j | 0 <= i < j < |rest| :: rest[i].orderId < rest[j].orderId)
            && (forall j | 0 <= j < |rest| :: rest[j] in orders && rest[j].orderId != orders[k].orderId)
  {
  }

  /** Resting an order younger than every order in its side: it goes last in its level. */
  lemma AddKeeps(books: Books, index: Index, order: ActiveOrder)
    requires Consistent(books, index)
    requires order.location.orderId !in index && order.location.owner == order.owner && order.remaining > 0
    requires forall id | id in index :: id < order.location.orderId
    requires var levels := Levels(books, order.instrument, order.side);
             var i := Find(levels, order.price);
             (if i < |levels| then levels[i].total else 0) + order.remaining <= MAX_AGGREGATE
    ensures var levels := Levels(books, order.instrument, order.side);
            && (forall i | 0 <= i < |levels| ::
                  levels[i].price == order.price ==> levels[i].total + order.remaining < U64_LIMIT)
            && Consistent(SetSide(books, order.instrument, order.side,
                                  Append(order.side, levels, order.price, order.location, order.remaining)),
                          index[order.location.orderId := order])
  {
    hide Consistent, SideOk, LevelOk, Append, Located, Find, Slot, SetSide, SameExcept;
    var levels := Levels(books, order.instrument, order.side);
    var id := order.location.orderId;
    var index' := index[id := order];
    SideOf(books, index, order.instrument, order.side);
    OnlyOneLevel(levels, order.instrument, order.side, index, order.price);
    var levels' := Append(order.side, levels, order.price, order.location, order.remaining);
    AddSide(levels, index, order);
    assert SameExcept(index, index', id) by { SameExceptPut(index, id, order); }
    forall other | other in index' && OnSide(index'[other], order.instrument, order.side)
      ensures index'[other].location.orderId == other && index'[other].remaining > 0 && Located(levels', index'[other])
    {
      if other == id {
        AppendLocates(levels, order);
      } else {
        var i, k := WhereIs(books, index, other);
        AppendKeepsLocated(levels, order, index[other], i, k);
      }
    }
    SideChangeKeeps(books, index, index', id, order.instrument, order.side, levels');
  }

  lemma AppendLocates(levels: seq<PriceLevel>, order: ActiveOrder)
    requires forall i | 0 <= i < |levels| ::
               levels[i].price == order.price ==> levels[i].total + order.remaining < U64_LIMIT
    ensures Located(Append(order.side, levels, order.price, order.location, order.remaining), order)
  {
    var slot := Slot(order.side, levels, order.price);
    var levels' := Append(order.side, levels, order.price, order.location, order.remaining);
    assert At(levels', slot, |levels'[slot].orders| - 1, order.location);
  }

  lemma AppendKeepsLocated(levels: seq<PriceLevel>, order: ActiveOrder, other: ActiveOrder, i: nat, k: nat)
    requires forall i | 0 <= i < |levels| ::
               levels[i].price == order.price ==> levels[i].total + order.remaining < U64_LIMIT
    requires At(levels, i, k, other.location) && levels[i].price == other.price
    ensures Located(Append(order.side, levels, order.price, order.location, order.remaining), other)
  {
    var levels' := Append(order.side, levels, order.price, order.location, order.remaining);
    var shifted := |levels'| > |levels| && i >= Slot(order.side, levels, order.price);
    assert At(levels', if shifted then i + 1 else i, k, other.location);
  }

  lemma OnlyOneLevel(levels: seq<PriceLevel>, instrument: u64, side: Side, index: Index, price: u64)
    requires SideOk(levels, instrument, side, index)
    ensures forall i | 0 <= i < |levels| && levels[i].price == price :: i == Find(levels, price)
    ensures Find(levels, price) < |levels| ==> Find(levels, price) == Slot(side, levels, price)
  {
    var found, slot := Find(levels, price), Slot(side, levels, price);
    assert forall i | 0 <= i < |levels| && levels[i].price == price :: found < i ==>
        Better(side, levels[found].price, levels[i].price);
  }

  lemma AddSide(levels: seq<PriceLevel>, index: Index, order: ActiveOrder)
    requires SideOk(levels, order.instrument, order.side, index)
    requires order.location.orderId !in index && order.location.owner == order.owner
    requires forall id | id in index :: id < order.location.orderId
    requires forall i | 0 <= i < |levels| && levels[i].price == order.price ::
               levels[i].total + order.remaining <= MAX_AGGREGATE
    requires order.remaining <= MAX_AGGREGATE
    ensures SideOk(Append(order.side, levels, order.price, order.location, order.remaining),
                   order.instrument, order.side, index[order.location.orderId := order])
  {
    hide LevelOk, SideOk, Slot, SameExcept;
    var index' := index[order.location.orderId := order];
    var slot := Slot(order.side, levels, order.price);
    SameExceptPut(index, order.location.orderId, order);
    SideFrame(levels, order.instrument, order.side, index, index', order.location.orderId);
    if slot < |levels| && levels[slot].price == order.price {
      SideLevel(levels, order.instrument, order.side, index, slot);
      LevelAfterAppend(levels[slot], index, order);
      ReplaceLevel(levels, order.instrument, order.side, index', slot,
                   PriceLevel(order.price, levels[slot].total + order.remaining,
                              levels[slot].orders + [order.location]));
    } else {
      NewLevelOk(index, order);
      InsertLevel(levels, order.instrument, order.side, index', slot,
                  PriceLevel(order.price, order.remaining, [order.location]));
    }
  }

  lemma SideLevel(levels: seq<PriceLevel>, instrument: u64, side: Side, index: Index, i: nat)
    requires SideOk(levels, instrument, side, index) && i < |levels|
    ensures LevelOk(levels[i], instrument, side, index)
  {
    hide LevelOk;
  }

  lemma ReplaceLevel(levels: seq<PriceLevel>, instrument: u64, side: Side, index: Index, i: nat, level: PriceLevel)
    requires SideOk(levels, instrument, side, index) && LevelOk(level, instrument, side, index)
    requires i < |levels| && level.price == levels[i].price
    ensures SideOk(levels[i := level], instrument, side, index)
  {
    hide LevelOk, Better;
  }

  lemma InsertLevel(levels: seq<PriceLevel>, instrument: u64, side: Side, index: Index, slot: nat, level: PriceLevel)
    requires SideOk(levels, instrument, side, index) && LevelOk(level, instrument, side, index)
    requires slot == Slot(side, levels, level.price)
    requires slot < |levels| ==> levels[slot].price != level.price
    ensures SideOk(Inserted(levels, slot, level), instrument, side, index)
  {
    hide LevelOk, Slot, Inserted;
    SlotSeparates(levels, side, slot, level.price);
    hide Better;
    InsertedIsOrdered(levels, side, slot, level);
  }

  /** What comes after the slot ranks below the new price. */
  lemma SlotSeparates(levels: seq<PriceLevel>, side: Side, slot: nat, price: u64)
    requires forall i, j | 0 <= i < j < |levels| :: Better(side, levels[i].price, levels[j].price)
    requires slot == Slot(side, levels, price) && (slot < |levels| ==> levels[slot].price != price)
    ensures forall j | slot <= j < |levels| :: Better(side, price, levels[j].price)
  {
    hide Slot;
    forall j | slot <= j < |levels|
      ensures Better(side, price, levels[j].price)
    {
      assert slot < j ==> Better(side, levels[slot].price, levels[j].price);
    }
  }

  lemma InsertedIsOrdered(levels: seq<PriceLevel>, side: Side, slot: nat, level: PriceLevel)
    requires slot <= |levels|
    requires forall i, j | 0 <= i < j < |levels| :: Better(side, levels[i].price, levels[j].price)
    requires forall j | 0 <= j < slot :: Better(side, levels[j].price, level.price)
    requires forall j | slot <= j < |levels| :: Better(side, level.price, levels[j].price)
    ensures var after := Inserted(levels, slot, level);
            forall i, j | 0 <= i < j < |after| :: Better(side, after[i].price, after[j].price)
  {
    hide Better, Inserted;
  }

  lemma LevelAfterAppend(level: PriceLevel, index: Index, order: ActiveOrder)
    requires LevelOk(level, order.instrument, order.side, index) && level.price == order.price
    requires order.location.orderId !in index && order.location.owner == order.owner
    requires forall id | id in index :: id < order.location.orderId
    requires level.total + order.remaining <= MAX_AGGREGATE
    ensures LevelOk(PriceLevel(order.price, level.total + order.remaining, level.orders + [order.location]),
                    order.instrument, order.side, index[order.location.orderId := order])
  {
    var index' := index[order.location.orderId := order];
    SumConcat(level.orders, [order.location], index');
    SumFrame(level.orders, index, index');
    assert SumOf([order.location], index') == order.remaining + SumOf([], index');
  }

  lemma NewLevelOk(index: Index, order: ActiveOrder)
    requires order.location.owner == order.owner && order.remaining <= MAX_AGGREGATE
    ensures LevelOk(PriceLevel(order.price, order.remaining, [order.location]),
                    order.instrument, order.side, index[order.location.orderId := order])
  {
    var index' := index[order.location.orderId := order];
    assert SumOf([order.location], index') == order.remaining + SumOf([], index');
  }
}
