/**
 * Where an accepted command can be. Each predicate relates the contents of neighbouring stages to the histories of the
 * run: the accepted messages, those that were numbered and journaled, and the result batches.
 */
module Stages {
  import opened LittleEndian
  import opened Domain
  import opened PriceTime
  import opened PriceTimeTheorems
  import opened JournalFrame
  import opened CommandCodec
  import opened HeaderCodec
  import opened JournalFile
  import opened JournalWriter
  import opened Replay

  function AsSeq<T>(o: Option<T>): seq<T> {
    if o.Some? then [o.value] else []
  }

  /** A message as it enters matching: numbered, and a new order is identified by its number. */
  function Numbered(m: Message, n: u64): Message {
    m.(sequence := n, orderId := if IsNewOrder(m) then n else m.orderId)
  }

  // ----- Acceptance and sequencing

  /**
   * In acceptance order: the numbered messages, then the one whose append failed, then the staging queue. Numbers have
   * no gaps.
   */
  ghost predicate InAcceptanceOrder(accepted: seq<Message>, live: seq<Message>, held: Option<Message>, ingress: seq<Message>) {
    && |accepted| < U64_LIMIT && |live| + |AsSeq(held)| <= |accepted|
    && (forall k | 0 <= k < |live| :: live[k] == Numbered(accepted[k], k + 1))
    && (held.Some? ==> held.value == accepted[|live|].(sequence := |live| + 1))
    && ingress == accepted[|live| + |AsSeq(held)|..]
  }

  /** Exactly the numbered messages have been committed, each as its own command. */
  ghost predicate Journaled(h: Header, live: seq<Message>, committed: seq<Command>) {
    && |live| == |committed|
    && (forall k | 0 <= k < |live| :: CommandOf(h, live[k]) == Some(committed[k]))
  }

  /** The journal file may already hold the command whose append failed, and nothing else beyond what is committed. */
  ghost predicate InFlight(h: Header, committed: seq<Command>, attempted: seq<Command>, held: Option<Message>) {
    || attempted == committed
    || (&& held.Some? && CommandOf(h, held.value).Some?
        && attempted == committed + [CommandOf(h, held.value).value])
  }

  lemma NothingInFlight(h: Header, committed: seq<Command>, held: Option<Message>)
    ensures InFlight(h, committed, committed, held)
  {
  }

  /** Submitted cancels carry no order id of their own. */
  ghost predicate PlainCancels(accepted: seq<Message>) {
    forall k | 0 <= k < |accepted| :: !IsNewOrder(accepted[k]) ==> accepted[k].orderId == 0
  }

  lemma AcceptOne(accepted: seq<Message>, live: seq<Message>, held: Option<Message>, ingress: seq<Message>, m: Message)
    requires InAcceptanceOrder(accepted, live, held, ingress) && |accepted| + 1 < U64_LIMIT
    ensures InAcceptanceOrder(accepted + [m], live, held, ingress + [m])
  {
  }

  lemma AcceptPlain(accepted: seq<Message>, m: Message)
    requires PlainCancels(accepted) && (!IsNewOrder(m) ==> m.orderId == 0)
    ensures PlainCancels(accepted + [m])
  {
  }

  /** Taking the front of the staging queue takes the oldest command without a number. */
  lemma TakeNext(accepted: seq<Message>, live: seq<Message>, ingress: seq<Message>)
    requires InAcceptanceOrder(accepted, live, None, ingress) && ingress != []
    ensures |live| < |accepted| && |live| + 1 < U64_LIMIT && ingress[0] == accepted[|live|]
    ensures InAcceptanceOrder(accepted, live, Some(ingress[0].(sequence := |live| + 1)), ingress[1..])
    ensures InAcceptanceOrder(accepted, live + [Numbered(ingress[0], |live| + 1)], None, ingress[1..])
  {
  }

  lemma JournalOne(h: Header, live: seq<Message>, committed: seq<Command>, m: Message, c: Command)
    requires Journaled(h, live, committed) && CommandOf(h, m) == Some(c)
    ensures Journaled(h, live + [m], committed + [c])
  {
    hide CommandOf;
  }

  // ----- Room in the journal

  /** The command a message would be journaled as under number `n`. */
  function CommandAs(h: Header, m: Message, n: u64): Option<Command> {
    CommandOf(h, m.(sequence := n))
  }

  /** Whether the journal would take the message under some number. */
  ghost predicate Journalable(h: Header, m: Message) {
    CommandAs(h, m, 1).Some? && InContext(h, CommandAs(h, m, 1).value, 1)
  }

  /** Neither that nor the size of the record depends on the number. */
  lemma NumberDoesNotMatter(h: Header, m: Message, n: u64)
    requires n > 0
    ensures Journalable(h, m) <==> CommandAs(h, m, n).Some? && InContext(h, CommandAs(h, m, n).value, n)
    ensures Journalable(h, m) ==> |FrameOf(CommandAs(h, m, n).value)| == |FrameOf(CommandAs(h, m, 1).value)|
    ensures CommandOf(h, Numbered(m, n)) == CommandAs(h, m, n)
  {
    hide HasConfiguration, FrameOf;
    if CommandAs(h, m, n).Some? {
      SameSize(CommandAs(h, m, n).value, CommandAs(h, m, 1).value);
    }
  }

  lemma SameSize(c: Command, c': Command)
    requires RecordType(c) == RecordType(c') && c.commandId == c'.commandId
    ensures |FrameOf(c)| == |FrameOf(c')|
  {
    hide *;
    PayloadSize(c);
    PayloadSize(c');
  }

  /** The bytes a waiting message will add to the journal. */
  ghost function FrameBytes(h: Header, m: Message): nat {
    if Journalable(h, m) then |FrameOf(CommandAs(h, m, 1).value)| else 0
  }

  ghost function WaitingBytes(h: Header, waiting: seq<Message>): nat {
    if waiting == [] then 0 else WaitingBytes(h, waiting[..|waiting| - 1]) + FrameBytes(h, waiting[|waiting| - 1])
  }

  lemma WaitingSnoc(h: Header, waiting: seq<Message>, m: Message)
    ensures WaitingBytes(h, waiting + [m]) == WaitingBytes(h, waiting) + FrameBytes(h, m)
  {
    hide FrameBytes;
    assert (waiting + [m])[..|waiting|] == waiting;
  }

  lemma {:induction false} WaitingFront(h: Header, waiting: seq<Message>)
    requires waiting != []
    ensures WaitingBytes(h, waiting) == FrameBytes(h, waiting[0]) + WaitingBytes(h, waiting[1..])
    decreases |waiting|
  {
    hide FrameBytes;
    if |waiting| > 1 {
      var front := waiting[..|waiting| - 1];
      WaitingFront(h, front);
      assert front[1..] == waiting[1..][..|waiting| - 2];
    } else {
      assert waiting[..0] == waiting[1..];
    }
  }

  /** Room has been set aside for every accepted command that is not in the journal yet. */
  ghost predicate Reserves(h: Header, accepted: seq<Message>, committed: seq<Command>, commands: nat, bytes: nat) {
    && |committed| <= |accepted| <= h.maxCommands
    && commands == |accepted| - |committed|
    && bytes == WaitingBytes(h, accepted[|committed|..])
    && |Journal(h, committed)| + bytes <= h.maxBytes
  }

  lemma ReserveOne(h: Header, accepted: seq<Message>, committed: seq<Command>, commands: nat, bytes: nat, m: Message)
    requires Reserves(h, accepted, committed, commands, bytes) && |accepted| < h.maxCommands
    requires |Journal(h, committed)| + bytes + FrameBytes(h, m) <= h.maxBytes
    ensures Reserves(h, accepted + [m], committed, commands + 1, bytes + FrameBytes(h, m))
  {
    hide FrameBytes, Journal, WaitingBytes;
    assert (accepted + [m])[|committed|..] == accepted[|committed|..] + [m];
    WaitingSnoc(h, accepted[|committed|..], m);
  }

  /** The oldest waiting command always fits, so an append never finds the journal full. */
  lemma NextFits(h: Header, accepted: seq<Message>, committed: seq<Command>, commands: nat, bytes: nat, c: Command)
    requires Reserves(h, accepted, committed, commands, bytes) && Fits(h, committed) && |committed| < |accepted|
    requires |committed| + 1 < U64_LIMIT && CommandAs(h, accepted[|committed|], |committed| + 1) == Some(c)
    requires InContext(h, c, |committed| + 1)
    ensures Fits(h, committed + [c])
    ensures commands > 0 && bytes >= |FrameOf(c)|
    ensures Reserves(h, accepted, committed + [c], commands - 1, bytes - |FrameOf(c)|)
    ensures |Journal(h, committed + [c])| == |Journal(h, committed)| + |FrameOf(c)|
  {
    hide FrameOf, Journal, WaitingBytes, CommandOf, InContext, Fits;
    var m, waiting := accepted[|committed|], accepted[|committed|..];
    NumberDoesNotMatter(h, m, |committed| + 1);
    WaitingFront(h, waiting);
    assert waiting[1..] == accepted[|committed| + 1..];
    FitsOneMore(h, committed, c);
    JournalSnoc(h, committed, c);
  }

  // ----- Matching

  /** Matching has processed a leading part of the numbered messages; the rest is queued for it, in order. */
  ghost predicate MatchedInOrder(run: u64, live: seq<Message>, matching: seq<Message>, ready: Option<Message>,
                                 resting: Book, batches: seq<Batch>)
  {
    && |batches| <= |live| && live[|batches|..] == matching + AsSeq(ready)
    && RunSucceeds(run, live[..|batches|]) && Run(run, live[..|batches|]) == Ran(resting, batches)
  }

  lemma QueueReady(run: u64, live: seq<Message>, matching: seq<Message>, m: Message, resting: Book, batches: seq<Batch>)
    requires MatchedInOrder(run, live, matching, Some(m), resting, batches)
    ensures MatchedInOrder(run, live, matching + [m], None, resting, batches)
  {
    hide Run, RunSucceeds;
  }

  lemma MakeReady(run: u64, live: seq<Message>, matching: seq<Message>, m: Message, resting: Book, batches: seq<Batch>)
    requires MatchedInOrder(run, live, matching, None, resting, batches)
    ensures MatchedInOrder(run, live + [m], matching, Some(m), resting, batches)
  {
    hide Run, RunSucceeds;
    assert (live + [m])[..|batches|] == live[..|batches|];
  }

  lemma MatchOne(run: u64, live: seq<Message>, matching: seq<Message>, ready: Option<Message>, resting: Book,
                 batches: seq<Batch>)
    requires MatchedInOrder(run, live, matching, ready, resting, batches) && matching != [] && Positive(resting)
    requires Apply(run, resting, matching[0]).Done?
    ensures var outcome := Apply(run, resting, matching[0]);
            MatchedInOrder(run, live, matching[1..], ready, outcome.book, batches + [outcome.batch])
  {
    hide Apply, Run, RunSucceeds;
    var n := |batches|;
    assert live[n] == live[n..][0] == matching[0];
    RunSnoc(run, live[..n], matching[0]);
    assert live[..n + 1] == live[..n] + [matching[0]];
    assert live[n + 1..] == live[n..][1..];
  }

  // ----- The live run is the run of the journal

  lemma NumberedLive(h: Header, accepted: seq<Message>, live: seq<Message>, committed: seq<Command>,
                     held: Option<Message>, ingress: seq<Message>, k: nat)
    requires InAcceptanceOrder(accepted, live, held, ingress) && Journaled(h, live, committed) && PlainCancels(accepted)
    requires KnowsInstruments(h) && Fits(h, committed) && k < |live|
    ensures SameEffect(live[k], MessageFrom(committed[k]))
    ensures Sequenced(live[k], k + 1) && Admissible(live[k])
  {
    hide Journal, HasConfiguration;
    assert live[k] == Numbered(accepted[k], k + 1);
    JournalKeepsEffect(h, live[k], k + 1);
    assert InContext(h, committed[k], k + 1);
    InContextIsAdmissible(h, committed[k], k + 1);
  }

  /** Matching the next message succeeds, with a result correlated to it. */
  lemma NextMatches(h: Header, accepted: seq<Message>, live: seq<Message>, committed: seq<Command>,
                    held: Option<Message>, ingress: seq<Message>, matching: seq<Message>, ready: Option<Message>,
                    resting: Book, batches: seq<Batch>)
    requires InAcceptanceOrder(accepted, live, held, ingress) && Journaled(h, live, committed) && PlainCancels(accepted)
    requires KnowsInstruments(h) && Fits(h, committed)
    requires MatchedInOrder(h.run, live, matching, ready, resting, batches) && matching != []
    ensures IsNewOrder(matching[0]) ==> matching[0].orderId == |batches| + 1
    ensures Sound(resting, |batches| + 1) && Apply(h.run, resting, matching[0]).Done?
    ensures matching[0].clientCommandId.Some?
    ensures var batch := Apply(h.run, resting, matching[0]).batch;
            && batch.correlation == CorrelationOf(h.run, matching[0])
            && 1 <= |batch.events| <= MAX_EVENTS_PER_COMMAND
  {
    hide Apply, Run, RunSucceeds, InAcceptanceOrder, Journaled, PlainCancels, KnowsInstruments, Fits, Sound;
    var n := |batches|;
    assert live[n] == live[n..][0] == matching[0];
    forall k | 0 <= k <= n
      ensures Sequenced(live[k], k + 1) && Admissible(live[k])
    {
      NumberedLive(h, accepted, live, committed, held, ingress, k);
    }
    RunIsSound(h.run, live[..n]);
    AdmissibleNeverThrows(h.run, resting, live[n], n + 1);
    SoundIsPositive(resting, n + 1);
    BatchShape(h.run, resting, matching[0]);
  }

  lemma SoundIsPositive(b: Book, next: nat)
    requires Sound(b, next)
    ensures Positive(b) && IdsBelow(b, next)
  {
  }

  /** Batch `k` of the live run is correlated to the command accepted as number `k + 1`. */
  ghost predicate Correlated(run: u64, accepted: seq<Message>, batches: seq<Batch>) {
    && |batches| <= |accepted| < U64_LIMIT
    && (forall k | 0 <= k < |batches| ::
          && accepted[k].clientCommandId.Some?
          && batches[k].correlation == Correlation(accepted[k].clientId, accepted[k].clientCommandId.value, k + 1, run)
          && 1 <= |batches[k].events| <= MAX_EVENTS_PER_COMMAND)
  }

  lemma CorrelateOne(h: Header, accepted: seq<Message>, live: seq<Message>, committed: seq<Command>,
                     held: Option<Message>, ingress: seq<Message>, matching: seq<Message>, ready: Option<Message>,
                     resting: Book, batches: seq<Batch>, batch: Batch)
    requires InAcceptanceOrder(accepted, live, held, ingress)
    requires MatchedInOrder(h.run, live, matching, ready, resting, batches) && matching != []
    requires Correlated(h.run, accepted, batches)
    requires matching[0].clientCommandId.Some? && batch.correlation == CorrelationOf(h.run, matching[0])
    requires 1 <= |batch.events| <= MAX_EVENTS_PER_COMMAND
    ensures Correlated(h.run, accepted, batches + [batch])
  {
    hide Run, RunSucceeds;
    var n := |batches|;
    assert live[n] == live[n..][0] == matching[0];
    assert live[n] == Numbered(accepted[n], n + 1);
  }

  /**
   * Recovery equals live: replaying what was committed gives results of which the live results are a prefix, and when
   * matching has caught up, the very book the live matcher holds.
   */
  lemma ReplayEqualsLive(h: Header, accepted: seq<Message>, live: seq<Message>, committed: seq<Command>,
                         held: Option<Message>, ingress: seq<Message>, matching: seq<Message>, ready: Option<Message>,
                         resting: Book, batches: seq<Batch>)
    requires InAcceptanceOrder(accepted, live, held, ingress) && Journaled(h, live, committed) && PlainCancels(accepted)
    requires KnowsInstruments(h) && Fits(h, committed)
    requires MatchedInOrder(h.run, live, matching, ready, resting, batches)
    ensures RunSucceeds(h.run, MessagesFrom(committed))
    ensures var replayed := Run(h.run, MessagesFrom(committed));
            && batches <= replayed.batches
            && (|batches| == |live| ==> replayed == Ran(resting, batches))
  {
    hide Run, RunSucceeds, InAcceptanceOrder, PlainCancels, KnowsInstruments, Fits, SameEffect;
    JournalReplays(h, committed);
    var ms := MessagesFrom(committed);
    forall k | 0 <= k < |live|
      ensures SameEffect(live[k], ms[k])
    {
      NumberedLive(h, accepted, live, committed, held, ingress, k);
    }
    RunKeepsEffect(h.run, live, ms);
    RunPrefix(h.run, live, |batches|);
    assert |batches| == |live| ==> live[..|batches|] == live;
  }

  // ----- Results on their way to the admission index

  ghost predicate ResultsInOrder(batches: seq<Batch>, completed: nat, results: seq<Batch>, pending: Option<Batch>) {
    completed <= |batches| && batches[completed..] == results + AsSeq(pending)
  }

  lemma ProduceResult(batches: seq<Batch>, completed: nat, results: seq<Batch>, batch: Batch)
    requires ResultsInOrder(batches, completed, results, None)
    ensures ResultsInOrder(batches + [batch], completed, results, Some(batch))
    ensures ResultsInOrder(batches + [batch], completed, results + [batch], None)
  {
  }

  lemma HandResult(batches: seq<Batch>, completed: nat, results: seq<Batch>, batch: Batch)
    requires ResultsInOrder(batches, completed, results, Some(batch))
    ensures ResultsInOrder(batches, completed, results + [batch], None)
  {
  }

  lemma TakeResult(batches: seq<Batch>, completed: nat, results: seq<Batch>, pending: Option<Batch>)
    requires ResultsInOrder(batches, completed, results, pending) && results != []
    ensures completed < |batches| && batches[completed] == results[0]
    ensures ResultsInOrder(batches, completed + 1, results[1..], pending)
  {
    assert batches[completed] == batches[completed..][0];
    assert batches[completed + 1..] == batches[completed..][1..];
  }
}
