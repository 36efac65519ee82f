/** Routing serialized results to connections with bounded outbound queues. */
module ApplicationGateway {
  import opened LittleEndian
  import opened Domain
  import opened ResultProjection
  import opened ApplicationJson

  datatype Connection = Connection(handle: u64, clientId: u64, run: u64, outbound: seq<string>, queuedBytes: nat)

  ghost function Size(messages: seq<string>): nat {
    if messages == [] then 0 else Size(messages[..|messages| - 1]) + |messages[|messages| - 1]|
  }

  lemma SizeSnoc(messages: seq<string>, message: string)
    ensures Size(messages + [message]) == Size(messages) + |message|
  {
    assert (messages + [message])[..|messages|] == messages;
  }

  lemma {:induction false} SizeFront(messages: seq<string>)
    requires messages != []
    ensures Size(messages) == |messages[0]| + Size(messages[1..])
    decreases |messages|
  {
    if |messages| > 1 {
      var front := messages[..|messages| - 1];
      SizeFront(front);
      assert front[1..] == messages[1..][..|messages| - 2];
    } else {
      assert messages[..0] == messages[1..];
    }
  }

  /** The byte count of a connection is exactly what its queue holds, within its capacity. */
  ghost predicate Accounted(c: Connection, capacity: nat) {
    c.queuedBytes == Size(c.outbound) <= capacity
  }

  ghost predicate AllAccounted(cs: seq<Connection>, capacity: nat) {
    forall k | 0 <= k < |cs| :: Accounted(cs[k], capacity)
  }

  /** No two connections share a handle, nor a client of a run. */
  ghost predicate Separate(cs: seq<Connection>) {
    forall j, k | 0 <= j < k < |cs| ::
      cs[j].handle != cs[k].handle && (cs[j].clientId != cs[k].clientId || cs[j].run != cs[k].run)
  }

  datatype EnqueueCapacity = HasSpace | SlowConsumer | InvariantFailure

  function CapacityFor(queuedBytes: nat, messageBytes: nat, capacity: nat): EnqueueCapacity {
    if queuedBytes > capacity then InvariantFailure
    else if messageBytes > capacity - queuedBytes then SlowConsumer
    else HasSpace
  }

  function Enqueue(c: Connection, message: string): Connection {
    c.(outbound := c.outbound + [message], queuedBytes := c.queuedBytes + |message|)
  }

  /** A connection after a message was offered to it: enqueued, or dropped because its queue is too full. */
  function Offer(c: Connection, message: string, capacity: nat): seq<Connection> {
    if CapacityFor(c.queuedBytes, |message|, capacity).HasSpace? then [Enqueue(c, message)] else []
  }

  lemma OfferKeepsAccount(c: Connection, message: string, capacity: nat)
    requires Accounted(c, capacity)
    ensures AllAccounted(Offer(c, message, capacity), capacity)
    ensures !CapacityFor(c.queuedBytes, |message|, capacity).InvariantFailure?
  {
    SizeSnoc(c.outbound, message);
  }

  // ----- Public routing

  /** Every connection of the run is offered the message; the others are untouched. */
  function Broadcast(cs: seq<Connection>, run: u64, message: string, capacity: nat): seq<Connection> {
    if cs == [] then []
    else
      var last := cs[|cs| - 1];
      Broadcast(cs[..|cs| - 1], run, message, capacity) +
      (if last.run == run then Offer(last, message, capacity) else [last])
  }

  lemma {:induction false} BroadcastKeeps(cs: seq<Connection>, run: u64, message: string, capacity: nat)
    requires AllAccounted(cs, capacity) && Separate(cs)
    ensures var after := Broadcast(cs, run, message, capacity);
            && AllAccounted(after, capacity) && Separate(after) && |after| <= |cs|
            && (forall c | c in after :: exists k | 0 <= k < |cs| :: SameConnection(cs[k], c))
    decreases |cs|
  {
    if cs != [] {
      var front, last := cs[..|cs| - 1], cs[|cs| - 1];
      BroadcastKeeps(front, run, message, capacity);
      OfferKeepsAccount(last, message, capacity);
      var before := Broadcast(front, run, message, capacity);
      var after := Broadcast(cs, run, message, capacity);
      forall c | c in after
        ensures exists k | 0 <= k < |cs| :: SameConnection(cs[k], c)
      {
        if c in before {
          var k :| 0 <= k < |front| && SameConnection(front[k], c);
          assert cs[k] == front[k];
        } else {
          assert SameConnection(cs[|cs| - 1], c);
        }
      }
      forall j, k | 0 <= j < k < |after|
        ensures after[j].handle != after[k].handle &&
                (after[j].clientId != after[k].clientId || after[j].run != after[k].run)
      {
        if k >= |before| {
          assert after[j] in before;
          var i :| 0 <= i < |front| && SameConnection(front[i], after[j]);
          assert cs[i] == front[i];
        }
      }
    }
  }

  lemma BroadcastOfNone(run: u64, message: string, capacity: nat)
    ensures Broadcast([], run, message, capacity) == []
  {
  }

  lemma BroadcastStep(cs: seq<Connection>, done: nat, run: u64, message: string, capacity: nat)
    requires done < |cs|
    ensures Broadcast(cs[..done + 1], run, message, capacity) ==
            Broadcast(cs[..done], run, message, capacity) +
            (if cs[done].run == run then Offer(cs[done], message, capacity) else [cs[done]])
    ensures cs[done..] == [cs[done]] + cs[done + 1..]
  {
    hide Offer;
    assert cs[..done + 1][..done] == cs[..done];
  }

  /** Keeping, replacing and erasing the element behind a routed part. */
  lemma Splice(routed: seq<Connection>, c: Connection, rest: seq<Connection>, changed: Connection)
    ensures var all, i := routed + ([c] + rest), |routed|;
            && all[i] == c && all == (routed + [c]) + rest
            && all[i := changed] == (routed + [changed]) + rest
            && all[..i] + all[i + 1..] == routed + rest == (routed + []) + rest
  {
  }

  predicate IsOf(c: Connection, clientId: u64, run: u64) {
    c.clientId == clientId && c.run == run
  }

  predicate SameConnection(c: Connection, d: Connection) {
    c.handle == d.handle && c.clientId == d.clientId && c.run == d.run
  }

  /** Routing a message to a connection: it joins the end of the queue if there is room, else the connection is dropped. */
  ghost predicate Receives(c: Connection, message: string, capacity: nat, after: seq<Connection>) {
    if Size(c.outbound) + |message| <= capacity then
      c.(outbound := c.outbound + [message], queuedBytes := Size(c.outbound) + |message|) in after
    else
      forall d | d in after :: d.handle != c.handle
  }

  lemma OfferIsReceived(c: Connection, message: string, capacity: nat)
    requires Accounted(c, capacity)
    ensures Receives(c, message, capacity, Offer(c, message, capacity))
  {
    hide Size;
  }

  /** Public routing reaches every connection of the run that has room, and leaves the other runs alone. */
  lemma {:induction false} BroadcastReaches(cs: seq<Connection>, run: u64, message: string, capacity: nat, k: nat)
    requires AllAccounted(cs, capacity) && Separate(cs) && k < |cs|
    ensures var after := Broadcast(cs, run, message, capacity);
            if cs[k].run == run then Receives(cs[k], message, capacity, after) else cs[k] in after
    decreases |cs|
  {
    hide Size, Accounted, Offer;
    var front, last := cs[..|cs| - 1], cs[|cs| - 1];
    var before := Broadcast(front, run, message, capacity);
    BroadcastKeeps(front, run, message, capacity);
    assert Accounted(last, capacity);
    OfferIsReceived(last, message, capacity);
    OfferKeepsHandle(last, message, capacity);
    if k < |front| {
      BroadcastReaches(front, run, message, capacity, k);
    } else {
      forall d | d in before
        ensures d.handle != last.handle
      {
        var i :| 0 <= i < |front| && SameConnection(front[i], d);
        assert front[i] == cs[i];
      }
    }
  }

  lemma OfferKeepsHandle(c: Connection, message: string, capacity: nat)
    ensures forall d | d in Offer(c, message, capacity) :: SameConnection(c, d)
  {
  }

  /** Every connection of the run receives the message, every other one is as it was. */
  ghost predicate AllReceive(before: seq<Connection>, run: u64, message: string, capacity: nat, after: seq<Connection>) {
    forall c | c in before :: if c.run == run then Receives(c, message, capacity, after) else c in after
  }

  lemma BroadcastIsReceived(cs: seq<Connection>, run: u64, message: string, capacity: nat)
    requires AllAccounted(cs, capacity) && Separate(cs)
    ensures AllReceive(cs, run, message, capacity, Broadcast(cs, run, message, capacity))
  {
    hide Broadcast, Receives, AllAccounted, Separate;
    forall c | c in cs
      ensures var after := Broadcast(cs, run, message, capacity);
              if c.run == run then Receives(c, message, capacity, after) else c in after
    {
      var k :| 0 <= k < |cs| && cs[k] == c;
      BroadcastReaches(cs, run, message, capacity, k);
    }
  }

  // ----- Private routing

  function FindClient(cs: seq<Connection>, client: u64, run: u64): (k: nat)
    ensures k <= |cs|
    ensures k < |cs| ==> cs[k].clientId == client && cs[k].run == run
    ensures forall j | 0 <= j < k :: cs[j].clientId != client || cs[j].run != run
  {
    if cs == [] || (cs[0].clientId == client && cs[0].run == run) then 0 else 1 + FindClient(cs[1..], client, run)
  }

  function FindHandle(cs: seq<Connection>, handle: u64): (k: nat)
    ensures k <= |cs|
    ensures k < |cs| ==> cs[k].handle == handle
    ensures forall j | 0 <= j < k :: cs[j].handle != handle
  {
    if cs == [] || cs[0].handle == handle then 0 else 1 + FindHandle(cs[1..], handle)
  }

  /** Only the recipient's own connection is offered the message. */
  function Send(cs: seq<Connection>, client: u64, run: u64, message: string, capacity: nat): seq<Connection> {
    var k := FindClient(cs, client, run);
    if k == |cs| then cs else cs[..k] + Offer(cs[k], message, capacity) + cs[k + 1..]
  }

  lemma SendKeeps(cs: seq<Connection>, client: u64, run: u64, message: string, capacity: nat)
    requires AllAccounted(cs, capacity) && Separate(cs)
    ensures var after := Send(cs, client, run, message, capacity);
            && AllAccounted(after, capacity) && Separate(after) && |after| <= |cs|
    ensures forall c | c in cs && (c.clientId != client || c.run != run) :: c in Send(cs, client, run, message, capacity)
    ensures forall c | c in cs && c.clientId == client && c.run == run ::
              Receives(c, message, capacity, Send(cs, client, run, message, capacity))
    ensures forall d | d in Send(cs, client, run, message, capacity) :: exists c :: c in cs && SameConnection(c, d)
  {
    var k := FindClient(cs, client, run);
    hide FindClient, Size, Offer;
    if k < |cs| {
      OfferKeepsAccount(cs[k], message, capacity);
      SendSeparate(cs, k, message, capacity);
      var after := cs[..k] + Offer(cs[k], message, capacity) + cs[k + 1..];
      forall c | c in cs && (c.clientId != client || c.run != run)
        ensures c in after
      {
        var j :| 0 <= j < |cs| && cs[j] == c;
        assert j < k ==> c in cs[..k];
        assert j > k ==> c == cs[k + 1..][j - k - 1];
      }
      forall c | c in cs && c.clientId == client && c.run == run
        ensures c == cs[k]
      {
        var j :| 0 <= j < |cs| && cs[j] == c;
      }
      SendReaches(cs, k, message, capacity);
    } else {
      assert forall d | d in cs :: SameConnection(d, d);
    }
  }

  lemma SendReaches(cs: seq<Connection>, k: nat, message: string, capacity: nat)
    requires Separate(cs) && k < |cs| && AllAccounted(cs, capacity)
    ensures var after := cs[..k] + Offer(cs[k], message, capacity) + cs[k + 1..];
            && Receives(cs[k], message, capacity, after)
            && forall d | d in after :: exists c :: c in cs && SameConnection(c, d)
  {
    hide Size, Accounted, Offer;
    assert Accounted(cs[k], capacity);
    OfferIsReceived(cs[k], message, capacity);
    OfferKeepsHandle(cs[k], message, capacity);
    assert forall j | 0 <= j < |cs| && j != k :: cs[j].handle != cs[k].handle;
    var after := cs[..k] + Offer(cs[k], message, capacity) + cs[k + 1..];
    forall d | d in after
      ensures exists c :: c in cs && SameConnection(c, d)
    {
      if d in Offer(cs[k], message, capacity) {
        assert cs[k] in cs;
      } else {
        assert d in cs && SameConnection(d, d);
      }
    }
  }

  lemma SendSeparate(cs: seq<Connection>, k: nat, message: string, capacity: nat)
    requires Separate(cs) && k < |cs| && AllAccounted(cs, capacity)
    requires AllAccounted(Offer(cs[k], message, capacity), capacity)
    ensures var after := cs[..k] + Offer(cs[k], message, capacity) + cs[k + 1..];
            Separate(after) && AllAccounted(after, capacity) && |after| <= |cs|
  {
    hide Size;
    var offered := Offer(cs[k], message, capacity);
    if offered == [] {
      assert cs[..k] + offered + cs[k + 1..] == cs[..k] + cs[k + 1..];
    } else {
      assert cs[..k] + offered + cs[k + 1..] == cs[k := Enqueue(cs[k], message)];
    }
  }

  datatype Delivery = Delivery(recipient: u64, run: u64, payload: string)

  function SendAll(cs: seq<Connection>, deliveries: seq<Delivery>, capacity: nat): seq<Connection> {
    if deliveries == [] then cs
    else
      var last := deliveries[|deliveries| - 1];
      Send(SendAll(cs, deliveries[..|deliveries| - 1], capacity), last.recipient, last.run, last.payload, capacity)
  }

  /** One message for each of several clients of a run. */
  ghost predicate OneEach(deliveries: seq<Delivery>, run: u64) {
    && (forall k | 0 <= k < |deliveries| :: deliveries[k].run == run)
    && (forall j, k | 0 <= j < k < |deliveries| :: deliveries[j].recipient != deliveries[k].recipient)
  }

  lemma {:induction false} SendAllKeeps(cs: seq<Connection>, deliveries: seq<Delivery>, capacity: nat)
    requires AllAccounted(cs, capacity) && Separate(cs)
    ensures var after := SendAll(cs, deliveries, capacity);
            AllAccounted(after, capacity) && Separate(after) && |after| <= |cs|
    decreases |deliveries|
  {
    hide Send;
    if deliveries != [] {
      var front, last := deliveries[..|deliveries| - 1], deliveries[|deliveries| - 1];
      SendAllKeeps(cs, front, capacity);
      SendKeeps(SendAll(cs, front, capacity), last.recipient, last.run, last.payload, capacity);
    }
  }

  /** A connection that no message is for is left as it was. */
  lemma {:induction false} BystanderIsUntouched(cs: seq<Connection>, deliveries: seq<Delivery>, capacity: nat, c: Connection)
    requires AllAccounted(cs, capacity) && Separate(cs) && c in cs
    requires forall k | 0 <= k < |deliveries| :: deliveries[k].recipient != c.clientId || deliveries[k].run != c.run
    ensures c in SendAll(cs, deliveries, capacity)
    decreases |deliveries|
  {
    hide Send;
    if deliveries != [] {
      var front, last := deliveries[..|deliveries| - 1], deliveries[|deliveries| - 1];
      BystanderIsUntouched(cs, front, capacity, c);
      SendAllKeeps(cs, front, capacity);
      SendKeeps(SendAll(cs, front, capacity), last.recipient, last.run, last.payload, capacity);
    }
  }

  /** A connection that is gone stays gone: routing adds none. */
  lemma {:induction false} SendAllAddsNone(cs: seq<Connection>, deliveries: seq<Delivery>, capacity: nat)
    requires AllAccounted(cs, capacity) && Separate(cs)
    ensures forall d | d in SendAll(cs, deliveries, capacity) :: exists c :: c in cs && SameConnection(c, d)
    decreases |deliveries|
  {
    hide Send;
    if deliveries == [] {
      assert forall d | d in cs :: SameConnection(d, d);
    } else {
      var front, last := deliveries[..|deliveries| - 1], deliveries[|deliveries| - 1];
      var before := SendAll(cs, front, capacity);
      SendAllAddsNone(cs, front, capacity);
      SendAllKeeps(cs, front, capacity);
      SendKeeps(before, last.recipient, last.run, last.payload, capacity);
      forall d | d in SendAll(cs, deliveries, capacity)
        ensures exists c :: c in cs && SameConnection(c, d)
      {
        var b :| b in before && SameConnection(b, d);
        var c :| c in cs && SameConnection(c, b);
        assert SameConnection(c, d);
      }
    }
  }

  /** Private routing gives a client with room its own message. */
  lemma {:induction false} ClientIsReached(cs: seq<Connection>, deliveries: seq<Delivery>, run: u64, capacity: nat,
                                           c: Connection, k: nat)
    requires AllAccounted(cs, capacity) && Separate(cs) && OneEach(deliveries, run)
    requires c in cs && k < |deliveries|
    requires deliveries[k].recipient == c.clientId && deliveries[k].run == c.run
    ensures Receives(c, deliveries[k].payload, capacity, SendAll(cs, deliveries, capacity))
    decreases |deliveries|
  {
    hide Send, Size;
    var front, last := deliveries[..|deliveries| - 1], deliveries[|deliveries| - 1];
    SendAllKeeps(cs, front, capacity);
    var before := SendAll(cs, front, capacity);
    SendKeeps(before, last.recipient, last.run, last.payload, capacity);
    if k < |deliveries| - 1 {
      ClientIsReached(cs, front, run, capacity, c, k);
      StaysReceived(before, SendAll(cs, deliveries, capacity), c, deliveries[k].payload, capacity, last.recipient, last.run);
    } else {
      forall j | 0 <= j < |front|
        ensures front[j].recipient != c.clientId
      {
        assert front[j] == deliveries[j];
      }
      BystanderIsUntouched(cs, front, capacity, c);
    }
  }

  /** Routing to another client changes nothing about that. */
  lemma StaysReceived(before: seq<Connection>, after: seq<Connection>, c: Connection, message: string, capacity: nat,
                      client: u64, run: u64)
    requires Receives(c, message, capacity, before) && (c.clientId != client || c.run != run)
    requires forall d | d in before && (d.clientId != client || d.run != run) :: d in after
    requires forall d | d in after :: exists b :: b in before && SameConnection(b, d)
    ensures Receives(c, message, capacity, after)
  {
    hide Size;
  }

  predicate IsFor(d: Delivery, c: Connection) {
    d.recipient == c.clientId && d.run == c.run
  }

  /** A connection receives the message there is for it, and is left alone when there is none. */
  ghost predicate Served(c: Connection, deliveries: seq<Delivery>, capacity: nat, after: seq<Connection>) {
    && (forall k | 0 <= k < |deliveries| && IsFor(deliveries[k], c) ::
          Receives(c, deliveries[k].payload, capacity, after))
    && ((forall k | 0 <= k < |deliveries| :: !IsFor(deliveries[k], c)) ==> c in after)
  }

  lemma AllClientsServed(cs: seq<Connection>, deliveries: seq<Delivery>, run: u64, capacity: nat)
    requires AllAccounted(cs, capacity) && Separate(cs) && OneEach(deliveries, run)
    ensures forall c | c in cs :: Served(c, deliveries, capacity, SendAll(cs, deliveries, capacity))
  {
    hide SendAll, Receives, AllAccounted, Separate, OneEach;
    forall c | c in cs
      ensures Served(c, deliveries, capacity, SendAll(cs, deliveries, capacity))
    {
      forall k | 0 <= k < |deliveries| && IsFor(deliveries[k], c)
        ensures Receives(c, deliveries[k].payload, capacity, SendAll(cs, deliveries, capacity))
      {
        ClientIsReached(cs, deliveries, run, capacity, c, k);
      }
      if forall k | 0 <= k < |deliveries| :: !IsFor(deliveries[k], c) {
        BystanderIsUntouched(cs, deliveries, capacity, c);
      }
    }
  }

  // ----- The gateway

  datatype AdvanceOutcome = Idle | Routed | FailedInput

  datatype RegistrationOutcome =
    | Registered
    | Replaced(handle: u64)
    | ConnectionLimitReached
    | InvalidBinding
    | HandleAlreadyRegistered

  /** Public trades of one controller result. */
  ghost predicate OneResult(trades: seq<PublicTrade>) {
    && 1 <= |trades| <= MAX_EVENTS_PER_COMMAND
    && (forall k | 0 <= k < |trades| ::
          && trades[k].eventId.index < MAX_EVENTS_PER_COMMAND
          && trades[k].eventId.run == trades[0].eventId.run
          && trades[k].eventId.sequence == trades[0].eventId.sequence)
  }

  /** Private results of one controller result, for clients with proper identities. */
  ghost predicate OneFanOut(batch: Batch, results: seq<RecipientResult>) {
    FromController(batch) && IsFanOut(batch, results) && forall k | 0 <= k < |results| :: results[k].recipient > 0
  }

  ghost function Deliveries(run: u64, results: seq<RecipientResult>): seq<Delivery>
    requires forall k | 0 <= k < |results| :: Serializable(results[k].privateResult)
  {
    seq(|results|, k requires 0 <= k < |results| => Delivery(results[k].recipient, run, PrivateMessage(run, results[k])))
  }

  lemma NothingSent(cs: seq<Connection>, deliveries: seq<Delivery>, capacity: nat)
    ensures SendAll(cs, deliveries[..0], capacity) == cs
  {
  }

  lemma SendStep(cs: seq<Connection>, deliveries: seq<Delivery>, i: nat, capacity: nat)
    requires i < |deliveries|
    ensures SendAll(cs, deliveries[..i + 1], capacity) ==
            Send(SendAll(cs, deliveries[..i], capacity), deliveries[i].recipient, deliveries[i].run, deliveries[i].payload,
                 capacity)
  {
    hide Send;
    assert deliveries[..i + 1][..i] == deliveries[..i];
  }

  /** Every message of one fan-out is for another client and fits an empty queue. */
  lemma FanOutDeliveries(batch: Batch, results: seq<RecipientResult>, capacity: nat)
    requires OneFanOut(batch, results) && MIN_OUTBOUND_CAPACITY <= capacity
    ensures forall k | 0 <= k < |results| :: Serializable(results[k].privateResult)
    ensures OneEach(Deliveries(batch.correlation.run, results), batch.correlation.run)
    ensures forall k | 0 <= k < |results| :: |Deliveries(batch.correlation.run, results)[k].payload| <= capacity
  {
    hide MIN_OUTBOUND_CAPACITY, PrivateMessage, Serializable, Projection, FromController;
    forall k | 0 <= k < |results|
      ensures Serializable(results[k].privateResult)
      ensures |PrivateMessage(batch.correlation.run, results[k])| <= capacity
    {
      PrivateMessageFits(batch, results[k].recipient);
    }
  }

  /** A connection of the run receives what its own client was told, and is left alone if its client was told nothing. */
  ghost predicate ResultsServed(c: Connection, run: u64, results: seq<RecipientResult>, capacity: nat,
                                after: seq<Connection>)
    requires forall k | 0 <= k < |results| :: Serializable(results[k].privateResult)
  {
    && (forall k | 0 <= k < |results| && results[k].recipient == c.clientId && run == c.run ::
          Receives(c, PrivateMessage(run, results[k]), capacity, after))
    && ((forall k | 0 <= k < |results| :: results[k].recipient != c.clientId || run != c.run) ==> c in after)
  }

  lemma ServedIsResultsServed(c: Connection, run: u64, results: seq<RecipientResult>, capacity: nat,
                              after: seq<Connection>)
    requires forall k | 0 <= k < |results| :: Serializable(results[k].privateResult)
    requires Served(c, Deliveries(run, results), capacity, after)
    ensures ResultsServed(c, run, results, capacity, after)
  {
    hide Receives, PrivateMessage, Serializable;
    var deliveries := Deliveries(run, results);
    assert forall k | 0 <= k < |results| ::
        IsFor(deliveries[k], c) <==> results[k].recipient == c.clientId && run == c.run;
  }

  /** Routing one fan-out serves every connection. */
  lemma FanOutServes(cs: seq<Connection>, batch: Batch, results: seq<RecipientResult>, capacity: nat)
    requires OneFanOut(batch, results) && MIN_OUTBOUND_CAPACITY <= capacity
    requires AllAccounted(cs, capacity) && Separate(cs)
    ensures forall k | 0 <= k < |results| :: Serializable(results[k].privateResult)
    ensures var deliveries := Deliveries(batch.correlation.run, results);
            forall c | c in cs ::
              ResultsServed(c, batch.correlation.run, results, capacity, SendAll(cs, deliveries, capacity))
    ensures forall k | 0 <= k < |results| :: |PrivateMessage(batch.correlation.run, results[k])| <= capacity
  {
    hide MIN_OUTBOUND_CAPACITY, OneFanOut, AllAccounted, Separate, SendAll, Served, ResultsServed, PrivateMessage,
         Serializable;
    FanOutDeliveries(batch, results, capacity);
    var run, deliveries := batch.correlation.run, Deliveries(batch.correlation.run, results);
    AllClientsServed(cs, deliveries, run, capacity);
    assert forall k | 0 <= k < |results| :: deliveries[k].payload == PrivateMessage(run, results[k]);
    forall c | c in cs
      ensures ResultsServed(c, run, results, capacity, SendAll(cs, deliveries, capacity))
    {
      ServedIsResultsServed(c, run, results, capacity, SendAll(cs, deliveries, capacity));
    }
  }

  lemma FanOutRecipients(batch: Batch, results: seq<RecipientResult>, k: nat)
    requires OneFanOut(batch, results) && k < |results|
    ensures Serializable(results[k].privateResult) && Consistent(batch.correlation.run, results[k])
    ensures results[k].recipient > 0 && results[k].privateResult != []
    ensures IdOf(results[k].privateResult[0]).run == batch.correlation.run
    ensures IdOf(results[k].privateResult[0]).sequence == batch.correlation.sequence
    ensures forall j | 0 <= j < k :: results[j].recipient != results[k].recipient
  {
    hide Serializable, Consistent, View, FromController;
    assert Projection(batch, results[k].recipient) == Some(results[k]);
    ProjectionSerializes(batch, results[k].recipient);
    FirstBelongs(batch, results[k]);
  }

  lemma FirstBelongs(batch: Batch, result: RecipientResult)
    requires FromController(batch) && Projection(batch, result.recipient) == Some(result)
    ensures result.privateResult != []
    ensures IdOf(result.privateResult[0]).run == batch.correlation.run
    ensures IdOf(result.privateResult[0]).sequence == batch.correlation.sequence
  {
    hide View;
    IndexesAreSmall(batch);
    ViewBelongs(batch.events, batch.correlation.run, batch.correlation.sequence, result.recipient);
  }

  lemma FanOutIsNotEmpty(batch: Batch, results: seq<RecipientResult>)
    requires OneFanOut(batch, results)
    ensures results != []
  {
    hide IsFanOut;
    FanOutSize(batch, results);
  }

  /** Serializes every recipient's result, checking that they belong to one command and to different clients. */
  method SerializeRecipients(results: seq<RecipientResult>, ghost batch: Batch) returns (serialized: Option<seq<Delivery>>)
    requires forall k | 0 <= k < |results| :: Serializable(results[k].privateResult)
    ensures OneFanOut(batch, results) ==> serialized == Some(Deliveries(batch.correlation.run, results))
  {
    hide Serializable, Consistent, OneFanOut, PrivateMessage;
    if OneFanOut(batch, results) {
      FanOutIsNotEmpty(batch, results);
    }
    if results == [] {
      return None;
    }
    var recipients: set<u64> := {};
    var deliveries: seq<Delivery> := [];
    var identity := EventId(0, 0, 0);
    var i := 0;
    while i < |results|
      invariant 0 <= i <= |results|
      invariant recipients == set k | 0 <= k < i :: results[k].recipient
      invariant OneFanOut(batch, results) ==>
                  && deliveries == Deliveries(batch.correlation.run, results)[..i]
                  && (i > 0 ==> identity.run == batch.correlation.run && identity.sequence == batch.correlation.sequence)
    {
      var result := results[i];
      if OneFanOut(batch, results) {
        FanOutRecipients(batch, results, i);
      }
      if result.recipient == 0 || result.privateResult == [] || result.recipient in recipients {
        return None;
      }
      recipients := recipients + {result.recipient};
      var id := IdOf(result.privateResult[0]);
      if i == 0 {
        identity := id;
      } else if id.run != identity.run || id.sequence != identity.sequence {
        return None;
      }
      var text := SerializePrivateResult(id.run, result);
      if text.Failed? {
        return None;
      }
      deliveries := deliveries + [Delivery(result.recipient, id.run, text.text)];
      i := i + 1;
    }
    assert Deliveries(batch.correlation.run, results)[..i] == Deliveries(batch.correlation.run, results);
    serialized := Some(deliveries);
  }

  /** The public trades of any controller result that traded are accepted as one message. */
  lemma ControllerTradesAreOneResult(batch: Batch)
    requires FromController(batch) && PublicTrades(batch.events) != []
    ensures OneResult(PublicTrades(batch.events))
  {
    IndexesAreSmall(batch);
    TradesBelong(batch.events, batch.correlation.run, batch.correlation.sequence);
  }

  lemma {:induction false} TradesBelong(events: seq<Event>, run: u64, sequence: u64)
    requires forall k | 0 <= k < |events| ::
               && events[k].eventId.index < MAX_EVENTS_PER_COMMAND
               && events[k].eventId.run == run && events[k].eventId.sequence == sequence
    ensures forall k | 0 <= k < |PublicTrades(events)| ::
              var id := PublicTrades(events)[k].eventId;
              id.index < MAX_EVENTS_PER_COMMAND && id.run == run && id.sequence == sequence
    decreases |events|
  {
    if events != [] {
      TradesBelong(events[..|events| - 1], run, sequence);
    }
  }

  /** Every connection of the run of the trades receives them as one message, which always fits an empty queue. */
  ghost predicate TradesServed(before: seq<Connection>, trades: seq<PublicTrade>, capacity: nat, after: seq<Connection>) {
    && trades != []
    && var run := trades[0].eventId.run;
       |PublicMessage(run, trades)| <= capacity && AllReceive(before, run, PublicMessage(run, trades), capacity, after)
  }

  class Gateway {
    const maximumConnections: nat
    const capacity: nat
    var connections: seq<Connection>
    var pendingPublic: Option<seq<PublicTrade>>
    var pendingPrivate: Option<seq<RecipientResult>>
    var publicFailed: bool
    var privateFailed: bool

    /** Within the limits, every byte count exact, no two connections of one client. */
    ghost predicate Connected()
      reads this`connections
    {
      && MIN_OUTBOUND_CAPACITY <= capacity
      && |connections| <= maximumConnections
      && AllAccounted(connections, capacity) && Separate(connections)
    }

    /** Between two calls, only a failure leaves something pending. */
    ghost predicate Valid()
      reads this`connections, this`pendingPublic, this`pendingPrivate, this`publicFailed, this`privateFailed
    {
      Connected() && (pendingPublic.Some? ==> publicFailed) && (pendingPrivate.Some? ==> privateFailed)
    }

    constructor (maximumConnections: nat, capacity: nat)
      requires maximumConnections > 0 && MIN_OUTBOUND_CAPACITY <= capacity
      ensures Valid() && connections == [] && !publicFailed && !privateFailed
      ensures pendingPublic.None? && pendingPrivate.None?
      ensures this.maximumConnections == maximumConnections && this.capacity == capacity
    {
      this.maximumConnections, this.capacity := maximumConnections, capacity;
      connections, pendingPublic, pendingPrivate := [], None, None;
      publicFailed, privateFailed := false, false;
    }

    /** A client of a run has one connection: a new one takes the place of the old, with an empty queue. */
    method RegisterConnection(handle: u64, clientId: u64, run: u64, boundRun: Option<u64>)
      returns (outcome: RegistrationOutcome)
      requires Valid()
      modifies this`connections
      ensures Valid()
      ensures outcome.Registered? ==> connections == old(connections) + [Connection(handle, clientId, run, [], 0)]
      ensures outcome.Replaced? ==>
                exists k :: 0 <= k < |old(connections)| && IsOf(old(connections)[k], clientId, run) &&
                  old(connections)[k].handle == outcome.handle &&
                  connections == old(connections)[k := Connection(handle, clientId, run, [], 0)]
      ensures !outcome.Registered? && !outcome.Replaced? ==> connections == old(connections)
      ensures outcome.InvalidBinding? <==> clientId == 0 || run == 0 || boundRun != Some(run)
      ensures outcome.HandleAlreadyRegistered? <==>
                !outcome.InvalidBinding? &&
                exists k :: 0 <= k < |old(connections)| && old(connections)[k].handle == handle
      ensures outcome.ConnectionLimitReached? <==>
                && !outcome.InvalidBinding? && !outcome.HandleAlreadyRegistered?
                && old(|connections|) == maximumConnections
                && forall k | 0 <= k < |old(connections)| :: !IsOf(old(connections)[k], clientId, run)
      ensures outcome.Registered? ==> forall k | 0 <= k < |old(connections)| :: !IsOf(old(connections)[k], clientId, run)
    {
      hide MIN_OUTBOUND_CAPACITY;
      if clientId == 0 || run == 0 || boundRun != Some(run) {
        return InvalidBinding;
      }
      if FindHandle(connections, handle) < |connections| {
        return HandleAlreadyRegistered;
      }
      var k := FindClient(connections, clientId, run);
      if k == |connections| && |connections| >= maximumConnections {
        return ConnectionLimitReached;
      }
      var added := Connection(handle, clientId, run, [], 0);
      if k < |connections| {
        var replaced := connections[k].handle;
        connections := connections[k := added];
        return Replaced(replaced);
      }
      connections := connections + [added];
      outcome := Registered;
    }

    method Disconnect(handle: u64) returns (found: bool)
      requires Valid()
      modifies this`connections
      ensures Valid()
      ensures found ==>
                exists k :: 0 <= k < |old(connections)| && old(connections)[k].handle == handle &&
                  connections == old(connections)[..k] + old(connections)[k + 1..]
      ensures !found ==> connections == old(connections)
      ensures forall k | 0 <= k < |connections| :: connections[k].handle != handle
    {
      hide MIN_OUTBOUND_CAPACITY;
      var k := FindHandle(connections, handle);
      if k == |connections| {
        return false;
      }
      connections := connections[..k] + connections[k + 1..];
      found := true;
    }

    /** Takes the oldest message; the byte count never falls short of it. */
    method TryPopOutbound(handle: u64) returns (message: Option<string>)
      requires Valid()
      modifies this`connections
      ensures Valid()
      ensures message.None? ==> connections == old(connections)
      ensures message.None? <==>
                forall k | 0 <= k < |old(connections)| :: old(connections)[k].handle == handle ==>
                  old(connections)[k].outbound == []
      ensures message.Some? ==>
                exists k :: 0 <= k < |old(connections)| && old(connections)[k].handle == handle &&
                  (var c := old(connections)[k];
                   && c.outbound != [] && message.value == c.outbound[0]
                   && connections == old(connections)[k := c.(outbound := c.outbound[1..],
                                                              queuedBytes := Size(c.outbound[1..]))])
    {
      hide MIN_OUTBOUND_CAPACITY;
      var k := FindHandle(connections, handle);
      if k == |connections| || connections[k].outbound == [] {
        return None;
      }
      var c := connections[k];
      var next := c.outbound[0];
      SizeFront(c.outbound);
      hide Size;
      assert Accounted(c, capacity);
      if |next| > c.queuedBytes {
        assert false; // the count includes every queued message
      }
      connections := connections[k := c.(outbound := c.outbound[1..], queuedBytes := c.queuedBytes - |next|)];
      message := Some(next);
    }

    /** Offers the pending public trades, as one message, to every connection of their run. */
    method AdvancePublic(popped: Option<seq<PublicTrade>>) returns (outcome: AdvanceOutcome)
      requires Valid()
      modifies this`connections, this`pendingPublic, this`publicFailed
      ensures Valid()
      ensures outcome.Idle? || outcome.FailedInput? ==> connections == old(connections)
      ensures outcome.Idle? <==> !old(publicFailed) && popped.None?
      ensures old(publicFailed) ==> outcome.FailedInput?
      ensures publicFailed <==> outcome.FailedInput?
      ensures outcome.Routed? ==>
                && popped.Some? && popped.value != []
                && connections == Broadcast(old(connections), popped.value[0].eventId.run,
                                            PublicMessage(popped.value[0].eventId.run, popped.value), capacity)
      ensures !old(publicFailed) && popped.Some? && OneResult(popped.value) ==>
                outcome.Routed? && TradesServed(old(connections), popped.value, capacity, connections)
    {
      hide MIN_OUTBOUND_CAPACITY, PublicMessage, Broadcast, Size, AllReceive;
      if publicFailed {
        return FailedInput;
      }
      if pendingPublic.None? {
        if popped.None? {
          return Idle;
        }
        pendingPublic := popped;
      }
      var trades := pendingPublic.value;
      if trades == [] {
        publicFailed := true;
        return FailedInput;
      }
      var run := trades[0].eventId.run;
      var serialized := SerializePublicTrades(run, trades);
      if serialized.Failed? {
        publicFailed := true;
        return FailedInput;
      }
      if OneResult(trades) {
        PublicMessageFits(run, trades);
      }
      BroadcastIsReceived(connections, run, serialized.text, capacity);
      BroadcastToConnections(run, serialized.text);
      pendingPublic := None;
      outcome := Routed;
    }

    method BroadcastToConnections(run: u64, payload: string)
      requires Connected()
      modifies this`connections
      ensures Connected() && connections == Broadcast(old(connections), run, payload, capacity)
    {
      hide MIN_OUTBOUND_CAPACITY, Size, Accounted, Broadcast, Separate, Enqueue;
      ghost var before := connections;
      BroadcastKeeps(before, run, payload, capacity);
      BroadcastOfNone(run, payload, capacity);
      var i := 0;
      ghost var done := 0;
      assert before[..0] == [];
      while i < |connections|
        invariant 0 <= done <= |before| && i <= |connections|
        invariant i == |Broadcast(before[..done], run, payload, capacity)|
        invariant connections == Broadcast(before[..done], run, payload, capacity) + before[done..]
        decreases |before| - done
      {
        BroadcastStep(before, done, run, payload, capacity);
        var c := connections[i];
        Splice(Broadcast(before[..done], run, payload, capacity), before[done], before[done + 1..], Enqueue(c, payload));
        assert Accounted(c, capacity);
        if c.run != run {
          i := i + 1;
        } else {
          OfferKeepsAccount(c, payload, capacity);
          match CapacityFor(c.queuedBytes, |payload|, capacity) {
            case HasSpace =>
              connections := connections[i := Enqueue(c, payload)];
              i := i + 1;
            case SlowConsumer =>
              connections := connections[..i] + connections[i + 1..];
            case InvariantFailure =>
              assert false; // the count never exceeds the capacity
          }
        }
        done := done + 1;
      }
      assert done == |before|;
      assert before[..done] == before && before[done..] == [];
      assert connections == Broadcast(before, run, payload, capacity);
    }

    /** Sends every recipient of the pending results its own message. */
    method AdvancePrivate(popped: Option<seq<RecipientResult>>, ghost batch: Batch) returns (outcome: AdvanceOutcome)
      requires Valid()
      requires popped.Some? ==> forall k | 0 <= k < |popped.value| :: Serializable(popped.value[k].privateResult)
      modifies this`connections, this`pendingPrivate, this`privateFailed
      ensures Valid()
      ensures outcome.Idle? || outcome.FailedInput? ==> connections == old(connections)
      ensures outcome.Idle? <==> !old(privateFailed) && popped.None?
      ensures old(privateFailed) ==> outcome.FailedInput?
      ensures privateFailed <==> outcome.FailedInput?
      ensures !old(privateFailed) && popped.Some? && OneFanOut(batch, popped.value) ==>
                var deliveries := Deliveries(batch.correlation.run, popped.value);
                && outcome.Routed?
                && connections == SendAll(old(connections), deliveries, capacity)
                && (forall k | 0 <= k < |popped.value| ::
                      |PrivateMessage(batch.correlation.run, popped.value[k])| <= capacity)
                && (forall c | c in old(connections) ::
                      ResultsServed(c, batch.correlation.run, popped.value, capacity, connections))
    {
      hide MIN_OUTBOUND_CAPACITY, SendAll, Deliveries, OneFanOut, AllAccounted, Separate, Serializable, ResultsServed;
      if privateFailed {
        return FailedInput;
      }
      if pendingPrivate.None? {
        if popped.None? {
          return Idle;
        }
        pendingPrivate := popped;
      }
      var results := pendingPrivate.value;
      if OneFanOut(batch, results) {
        FanOutServes(connections, batch, results, capacity);
      }
      var serialized := SerializeRecipients(results, batch);
      if serialized.None? {
        privateFailed := true;
        return FailedInput;
      }
      SendToConnections(serialized.value);
      pendingPrivate := None;
      outcome := Routed;
    }

    method SendToConnections(deliveries: seq<Delivery>)
      requires Connected()
      modifies this`connections
      ensures Connected() && connections == SendAll(old(connections), deliveries, capacity)
    {
      hide MIN_OUTBOUND_CAPACITY, Size, Accounted, SendAll, Separate, Serializable, AllAccounted, Send;
      ghost var before := connections;
      NothingSent(before, deliveries, capacity);
      var i := 0;
      while i < |deliveries|
        invariant 0 <= i <= |deliveries| && connections == SendAll(before, deliveries[..i], capacity)
      {
        SendAllKeeps(before, deliveries[..i], capacity);
        SendStep(before, deliveries, i, capacity);
        SendOne(deliveries[i]);
        i := i + 1;
      }
      assert deliveries[..i] == deliveries;
      SendAllKeeps(before, deliveries, capacity);
    }

    method SendOne(d: Delivery)
      requires AllAccounted(connections, capacity)
      modifies this`connections
      ensures connections == Send(old(connections), d.recipient, d.run, d.payload, capacity)
    {
      hide Size, Accounted, FindClient;
      var k := FindClient(connections, d.recipient, d.run);
      if k == |connections| {
        return;
      }
      var c := connections[k];
      OfferKeepsAccount(c, d.payload, capacity);
      match CapacityFor(c.queuedBytes, |d.payload|, capacity) {
        case HasSpace =>
          connections := connections[k := Enqueue(c, d.payload)];
        case SlowConsumer =>
          connections := connections[..k] + connections[k + 1..];
        case InvariantFailure =>
          assert false; // the count never exceeds the capacity
      }
    }
  }
}
