/** Completed results on their way to the private and public delivery queues. */
module Delivery {
  import opened LittleEndian
  import opened Domain
  import opened Stages
  import opened ResultProjection

  /** The public trades of each result that has any, result by result. */
  function TradeBatches(batches: seq<Batch>): seq<seq<PublicTrade>> {
    if batches == [] then []
    else
      var trades := PublicTrades(batches[|batches| - 1].events);
      TradeBatches(batches[..|batches| - 1]) + (if trades == [] then [] else [trades])
  }

  /** Each of them is the trades of exactly one result, whole. */
  lemma {:induction false} TradeBatchIsOneResult(batches: seq<Batch>, k: nat) returns (j: nat)
    requires k < |TradeBatches(batches)|
    ensures j < |batches| && TradeBatches(batches)[k] == PublicTrades(batches[j].events) != []
    decreases |batches|
  {
    hide PublicTrades;
    var front := batches[..|batches| - 1];
    if k < |TradeBatches(front)| {
      j := TradeBatchIsOneResult(front, k);
    } else {
      j := |batches| - 1;
    }
  }

  function Flatten(queue: seq<seq<PublicTrade>>): seq<PublicTrade> {
    if queue == [] then [] else Flatten(queue[..|queue| - 1]) + queue[|queue| - 1]
  }

  lemma FlattenSnoc(queue: seq<seq<PublicTrade>>, trades: seq<PublicTrade>)
    ensures Flatten(queue + [trades]) == Flatten(queue) + trades
  {
    assert (queue + [trades])[..|queue|] == queue;
  }

  lemma {:induction false} FlattenFront(queue: seq<seq<PublicTrade>>)
    requires queue != []
    ensures Flatten(queue) == queue[0] + Flatten(queue[1..])
    decreases |queue|
  {
    if |queue| > 1 {
      var front := queue[..|queue| - 1];
      FlattenFront(front);
      assert front[1..] == queue[1..][..|queue| - 2];
    } else {
      assert queue[..0] == queue[1..];
    }
  }

  function QueuedEvents(queue: seq<seq<RecipientResult>>): nat {
    if queue == [] then 0 else QueuedEvents(queue[..|queue| - 1]) + EventCount(queue[|queue| - 1])
  }

  lemma QueuedEventsSnoc(queue: seq<seq<RecipientResult>>, results: seq<RecipientResult>)
    ensures QueuedEvents(queue + [results]) == QueuedEvents(queue) + EventCount(results)
  {
    hide EventCount;
    assert (queue + [results])[..|queue|] == queue;
  }

  lemma {:induction false} QueuedEventsFront(queue: seq<seq<RecipientResult>>)
    requires queue != []
    ensures QueuedEvents(queue) == EventCount(queue[0]) + QueuedEvents(queue[1..])
    decreases |queue|
  {
    hide EventCount;
    if |queue| > 1 {
      var front := queue[..|queue| - 1];
      QueuedEventsFront(front);
      assert front[1..] == queue[1..][..|queue| - 2];
    } else {
      assert queue[..0] == queue[1..];
    }
  }

  /** The dispatcher between two steps: what is left of the newest completed result. */
  datatype Dispatch = Dispatch(pending: Option<Batch>, privateResults: seq<RecipientResult>, publicTrades: seq<PublicTrade>)

  const IDLE: Dispatch := Dispatch(None, [], [])

  ghost predicate Pending(d: Dispatch) {
    && d.pending.Some?
    && (d.privateResults != [] ==> IsFanOut(d.pending.value, d.privateResults))
    && (d.publicTrades != [] ==> d.publicTrades == PublicTrades(d.pending.value.events))
  }

  /**
   * Since delivery began, every completed result but the pending one has been handed over exactly once, in order: to
   * private delivery as its fan-out, to public delivery as its trades, one batch for each result that traded.
   */
  ghost predicate Delivered(batches: seq<Batch>, first: nat, completed: nat, d: Dispatch,
                            handedPrivate: seq<seq<RecipientResult>>, handedPublic: seq<seq<PublicTrade>>)
  {
    && first <= completed <= |batches|
    && (if d.pending.Some? then Pending(d) && first < completed && d.pending.value == batches[completed - 1]
        else d == IDLE)
    && |handedPrivate| == completed - first - (if d.privateResults != [] then 1 else 0)
    && (forall k | 0 <= k < |handedPrivate| :: IsFanOut(batches[first + k], handedPrivate[k]))
    && (var published := completed - (if d.publicTrades != [] then 1 else 0);
        first <= published && handedPublic == TradeBatches(batches[first..published]))
  }

  lemma NothingDelivered(batches: seq<Batch>, completed: nat)
    requires completed <= |batches|
    ensures Delivered(batches, completed, completed, IDLE, [], [])
  {
    hide IsFanOut, PublicTrades;
    assert batches[completed..completed] == [];
  }

  lemma DeliveredMoreBatches(batches: seq<Batch>, first: nat, completed: nat, d: Dispatch,
                             handedPrivate: seq<seq<RecipientResult>>, handedPublic: seq<seq<PublicTrade>>, batch: Batch)
    requires Delivered(batches, first, completed, d, handedPrivate, handedPublic)
    ensures Delivered(batches + [batch], first, completed, d, handedPrivate, handedPublic)
  {
    hide IsFanOut, PublicTrades, TradeBatches;
    var more := batches + [batch];
    assert forall n | first <= n <= completed :: more[first..n] == batches[first..n];
  }

  lemma TradeBatchesNext(batches: seq<Batch>, first: nat, n: nat)
    requires first <= n < |batches|
    ensures var trades := PublicTrades(batches[n].events);
            TradeBatches(batches[first..n + 1]) ==
            TradeBatches(batches[first..n]) + (if trades == [] then [] else [trades])
  {
    hide PublicTrades;
    var s := batches[first..n + 1];
    assert s[..|s| - 1] == batches[first..n] && s[|s| - 1] == batches[n];
  }

  /** The next result is taken up and projected. */
  lemma DispatchNext(batches: seq<Batch>, first: nat, completed: nat, handedPrivate: seq<seq<RecipientResult>>,
                     handedPublic: seq<seq<PublicTrade>>, results: seq<RecipientResult>)
    requires Delivered(batches, first, completed, IDLE, handedPrivate, handedPublic) && completed < |batches|
    requires IsFanOut(batches[completed], results) && results != []
    ensures Delivered(batches, first, completed + 1,
                      Dispatch(Some(batches[completed]), results, PublicTrades(batches[completed].events)),
                      handedPrivate, handedPublic)
  {
    hide IsFanOut, PublicTrades, TradeBatches;
    TradeBatchesNext(batches, first, completed);
  }

  lemma HandPrivate(batches: seq<Batch>, first: nat, completed: nat, d: Dispatch,
                    handedPrivate: seq<seq<RecipientResult>>, handedPublic: seq<seq<PublicTrade>>)
    requires Delivered(batches, first, completed, d, handedPrivate, handedPublic) && d.privateResults != []
    ensures Delivered(batches, first, completed, d.(privateResults := []), handedPrivate + [d.privateResults], handedPublic)
  {
    hide IsFanOut, PublicTrades, TradeBatches;
  }

  lemma HandPublic(batches: seq<Batch>, first: nat, completed: nat, d: Dispatch,
                   handedPrivate: seq<seq<RecipientResult>>, handedPublic: seq<seq<PublicTrade>>)
    requires Delivered(batches, first, completed, d, handedPrivate, handedPublic) && d.publicTrades != []
    ensures Delivered(batches, first, completed, d.(publicTrades := []), handedPrivate, handedPublic + [d.publicTrades])
  {
    hide IsFanOut, PublicTrades, TradeBatches;
    TradeBatchesNext(batches, first, completed - 1);
  }

  lemma ClearPending(batches: seq<Batch>, first: nat, completed: nat, d: Dispatch,
                     handedPrivate: seq<seq<RecipientResult>>, handedPublic: seq<seq<PublicTrade>>)
    requires Delivered(batches, first, completed, d, handedPrivate, handedPublic)
    requires d.privateResults == [] && d.publicTrades == []
    ensures Delivered(batches, first, completed, IDLE, handedPrivate, handedPublic)
  {
    hide IsFanOut, PublicTrades, TradeBatches;
  }
}
