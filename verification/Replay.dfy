/** Rebuilding matching results from journaled commands, and why they are the results of the live run. */
module Replay {
  import opened LittleEndian
  import opened Domain
  import opened PriceTime
  import opened PriceTimeTheorems
  import opened BookIndex
  import opened MatchingEngine
  import opened JournalFrame
  import opened CommandCodec
  import opened HeaderCodec
  import opened JournalFile

  // ----- Between live messages and journaled commands

  /** The command the sequencer journals for a message, if it has a journal form at all. */
  function CommandOf(h: Header, m: Message): Option<Command> {
    if m.clientCommandId.None? || m.configurationVersion >= U32_LIMIT then None
    else if IsNewOrder(m) then
      Some(NewOrder(h.run, m.sequence, h.rules, m.configurationVersion, m.clientId, m.instrumentId,
                    m.clientCommandId.value, if m.kind.BUY? then Buy else Sell, m.tif, m.price, m.quantity))
    else if !m.kind.CANCEL? || m.targetOrderId.None? then None
    else
      Some(Cancel(h.run, m.sequence, h.rules, m.configurationVersion, m.clientId, m.instrumentId,
                  m.clientCommandId.value, m.targetOrderId.value))
  }

  /** The message replay hands to matching. */
  function MessageFrom(c: Command): Message {
    match c
    case NewOrder(_, sequence, _, configuration, clientId, instrumentId, commandId, side, tif, price, quantity) =>
      Message(sequence, None, sequence, clientId, Some(commandId), instrumentId, configuration, price, quantity,
              if side.Buy? then BUY else SELL, tif)
    case Cancel(_, sequence, _, configuration, clientId, instrumentId, commandId, targetOrderId) =>
      Message(0, Some(targetOrderId), sequence, clientId, Some(commandId), instrumentId, configuration, 0, 0,
              CANCEL, DAY)
  }

  function MessagesFrom(commands: seq<Command>): seq<Message> {
    seq(|commands|, k requires 0 <= k < |commands| => MessageFrom(commands[k]))
  }

  /** The fields of a message that matching depends on. */
  ghost predicate SameEffect(m: Message, m': Message) {
    && m.kind == m'.kind && m.orderId == m'.orderId && m.sequence == m'.sequence
    && m.clientId == m'.clientId && m.clientCommandId == m'.clientCommandId && m.instrumentId == m'.instrumentId
    && (IsNewOrder(m) ==>
        && m.configurationVersion == m'.configurationVersion && m.price == m'.price
        && m.quantity == m'.quantity && m.tif == m'.tif)
    && (m.kind.CANCEL? ==> m.targetOrderId == m'.targetOrderId)
  }

  /** A sequenced message and the message replayed from its journal record differ only where matching does not look. */
  lemma JournalKeepsEffect(h: Header, m: Message, next: nat)
    requires CommandOf(h, m).Some? && Sequenced(m, next) && (!IsNewOrder(m) ==> m.orderId == 0)
    ensures SameEffect(m, MessageFrom(CommandOf(h, m).value))
    ensures Sequenced(MessageFrom(CommandOf(h, m).value), next)
  {
  }

  lemma {:induction false} FillKeepsEffect(run: u64, b: Book, m: Message, m': Message, remaining: u64, index: nat)
    requires Positive(b) && SameEffect(m, m') && IsNewOrder(m)
    ensures Fill(run, b, m, remaining, index) == Fill(run, b, m', remaining, index)
    decreases remaining
  {
    hide Fill;
    assert forall id :: Matches(b, m, id) <==> Matches(b, m', id);
    if remaining > 0 && exists id :: Matches(b, m, id) {
      var id :| Matches(b, m, id);
      var quantity := Min(remaining, b[id].quantity);
      FillStep(run, b, m, remaining, index, id);
      FillStep(run, b, m', remaining, index, id);
      FillKeepsEffect(run, Reduce(b, id, quantity), m, m', remaining - quantity, index + 1);
    } else {
      FillStop(run, b, m, remaining, index);
      FillStop(run, b, m', remaining, index);
    }
  }

  lemma ApplyKeepsEffect(run: u64, b: Book, m: Message, m': Message)
    requires Positive(b) && SameEffect(m, m')
    ensures Apply(run, b, m) == Apply(run, b, m')
  {
    hide Fill, Aggregate;
    if IsNewOrder(m) {
      FillKeepsEffect(run, b, m, m', m.quantity, 0);
    }
  }

  /** Two message lists that matching cannot tell apart give the same run. */
  lemma {:induction false} RunKeepsEffect(run: u64, ms: seq<Message>, ms': seq<Message>)
    requires |ms| == |ms'| && forall k | 0 <= k < |ms| :: SameEffect(ms[k], ms'[k])
    ensures RunSucceeds(run, ms) <==> RunSucceeds(run, ms')
    ensures RunSucceeds(run, ms) ==> Run(run, ms) == Run(run, ms')
    decreases |ms|
  {
    hide Apply;
    if ms != [] {
      var front, front' := ms[..|ms| - 1], ms'[..|ms| - 1];
      RunKeepsEffect(run, front, front');
      if RunSucceeds(run, front) && Positive(Run(run, front).book) {
        ApplyKeepsEffect(run, Run(run, front).book, ms[|ms| - 1], ms'[|ms| - 1]);
      }
    }
  }

  // ----- Which journals replay

  /** Every instrument of the header is one the matching engine has a configuration for. */
  predicate KnowsInstruments(h: Header) {
    forall k | 0 <= k < |h.instruments| :: FindByIdentity(h.instruments[k].id, h.instruments[k].configuration).Some?
  }

  lemma InContextIsAdmissible(h: Header, c: Command, sequence: nat)
    requires KnowsInstruments(h) && InContext(h, c, sequence)
    ensures Admissible(MessageFrom(c)) && Sequenced(MessageFrom(c), sequence)
  {
  }

  lemma MessagesSnoc(commands: seq<Command>, c: Command)
    ensures MessagesFrom(commands + [c]) == MessagesFrom(commands) + [MessageFrom(c)]
  {
  }

  /** Every journal that loads replays without a throw, into a sound book. */
  lemma JournalReplays(h: Header, commands: seq<Command>)
    requires KnowsInstruments(h) && Fits(h, commands)
    ensures RunSucceeds(h.run, MessagesFrom(commands))
    ensures Sound(Run(h.run, MessagesFrom(commands)).book, |commands| + 1)
    ensures |Run(h.run, MessagesFrom(commands)).batches| == |commands|
  {
    hide Journal, InContext;
    var ms := MessagesFrom(commands);
    forall k | 0 <= k < |ms|
      ensures Admissible(ms[k]) && Sequenced(ms[k], k + 1)
    {
      InContextIsAdmissible(h, commands[k], k + 1);
    }
    RunIsSound(h.run, ms);
  }

  lemma IdsStayBelow(run: u64, b: Book, m: Message, next: nat)
    requires Positive(b) && IdsBelow(b, next) && Sequenced(m, next) && Apply(run, b, m).Done?
    ensures IdsBelow(Apply(run, b, m).book, next + 1)
  {
    hide Fill, Aggregate;
    if IsNewOrder(m) {
      FillShrinks(run, b, m, m.quantity, 0);
    }
  }

  // ----- The replay loop

  datatype ReplayError = HeaderContext | CountExceeded | ReplaySequence | ReplayRun | ReplayRules | ReplayConfiguration

  datatype ReplayOutcome =
    | Replayed
    | InvalidJournal(error: ReplayError)
    | InvariantFailure

  function ContextError(h: Header, c: Command, expected: nat): Option<ReplayError> {
    if c.sequence != expected then Some(ReplaySequence)
    else if c.run != h.run then Some(ReplayRun)
    else if c.rules != h.rules then Some(ReplayRules)
    else if !HasConfiguration(h, c.instrumentId, c.configuration) then Some(ReplayConfiguration)
    else None
  }

  /** The state and the results after replaying a list of commands. */
  ghost predicate HasReplayed(h: Header, commands: seq<Command>, resting: Book, results: seq<Batch>) {
    && RunSucceeds(h.run, MessagesFrom(commands))
    && Run(h.run, MessagesFrom(commands)) == Ran(resting, results)
    && IdsBelow(resting, |commands| + 1)
  }

  lemma NothingReplayed(h: Header)
    ensures HasReplayed(h, [], map[], [])
  {
    assert MessagesFrom([]) == [];
  }

  lemma ReplayedOneMore(h: Header, commands: seq<Command>, c: Command, before: Book, results: seq<Batch>)
    requires HasReplayed(h, commands, before, results) && c.sequence == |commands| + 1 && Positive(before)
    requires Apply(h.run, before, MessageFrom(c)).Done?
    ensures var outcome := Apply(h.run, before, MessageFrom(c));
            HasReplayed(h, commands + [c], outcome.book, results + [outcome.batch])
  {
    IdsStayBelow(h.run, before, MessageFrom(c), |commands| + 1);
    hide Apply, Run, RunSucceeds;
    MessagesSnoc(commands, c);
    RunSnoc(h.run, MessagesFrom(commands), MessageFrom(c));
  }

  lemma OrdersBelow(index: Index, next: nat)
    ensures IdsBelow(Abs(index), next) <==> forall id | id in index :: id < next
  {
    assert forall id :: id in index <==> id in Abs(index);
  }

  method ReplayCommand(h: Header, ghost before: seq<Command>, c: Command, s: MatchingState, results: seq<Batch>)
    returns (reply: Reply)
    requires s.Valid() && s.run == h.run && HasReplayed(h, before, s.Resting(), results) && c.sequence == |before| + 1
    modifies s, s.nodes
    ensures s.Valid() && fresh(s.nodes - old(s.nodes)) && Positive(old(s.Resting()))
    ensures reply.Threw? ==> Apply(h.run, old(s.Resting()), MessageFrom(c)).Thrown?
    ensures reply.Replied? ==> HasReplayed(h, before + [c], s.Resting(), results + [reply.batch])
  {
    hide Apply, Run, RunSucceeds, MessagesFrom, Consistent, Positive;
    ghost var resting := s.Resting();
    OrdersBelow(s.activeOrders, |before| + 1);
    hide Abs;
    reply := s.ProcessCommand(MessageFrom(c));
    if reply.Replied? {
      ReplayedOneMore(h, before, c, resting, results);
    }
  }

  /**
   * Replays commands into a new matching state. A replayed journal yields exactly the run of its commands, and every
   * journal that loads is replayed, so neither the throws of matching nor the final self-check can reject it.
   */
  method ReplayJournal(h: Header, commands: seq<Command>)
    returns (outcome: ReplayOutcome, state: MatchingState?, results: seq<Batch>)
    ensures outcome.Replayed? <==> state != null
    ensures state != null ==>
              && fresh(state) && fresh(state.nodes) && state.Valid() && state.run == h.run
              && HasReplayed(h, commands, state.Resting(), results)
    ensures KnowsInstruments(h) && Fits(h, commands) ==> outcome.Replayed?
  {
    hide *;
    state, results := null, [];
    HeaderAccepted(h);
    ghost var loads := KnowsInstruments(h) && Fits(h, commands);
    if loads {
      LoadedJournal(h, commands);
    }
    var headerFrame := EncodeHeader(h);
    if headerFrame.Err? {
      return InvalidJournal(HeaderContext), null, [];
    }
    if |commands| > h.maxCommands {
      return InvalidJournal(CountExceeded), null, [];
    }
    var s := new MatchingState(h.run);
    NothingReplayed(h);
    var k := 0;
    while k < |commands|
      invariant 0 <= k <= |commands| && fresh(s) && fresh(s.nodes) && s.Valid() && s.run == h.run
      invariant HasReplayed(h, commands[..k], s.Resting(), results)
    {
      var contextError := ContextError(h, commands[k], k + 1);
      if contextError.Some? {
        return InvalidJournal(contextError.value), null, [];
      }
      InSequence(h, commands[k], k + 1);
      ghost var before := s.Resting();
      var reply := ReplayCommand(h, commands[..k], commands[k], s, results);
      if reply.Threw? {
        if loads {
          StepSucceeds(h, commands, k, before, results);
          assert false; // a journal that loads never makes matching throw
        }
        return InvariantFailure, null, [];
      }
      assert commands[..k + 1] == commands[..k] + [commands[k]];
      results := results + [reply.batch];
      k := k + 1;
    }
    assert commands[..|commands|] == commands;
    var ok := s.InvariantsHold();
    if !ok {
      assert false; // the structures agree after every command
    }
    return Replayed, s, results;
  }

  lemma InSequence(h: Header, c: Command, expected: nat)
    requires ContextError(h, c, expected).None?
    ensures c.sequence == expected
  {
  }

  lemma RunSnoc(run: u64, ms: seq<Message>, m: Message)
    requires RunSucceeds(run, ms) && Positive(Run(run, ms).book) && Apply(run, Run(run, ms).book, m).Done?
    ensures RunSucceeds(run, ms + [m])
    ensures var outcome := Apply(run, Run(run, ms).book, m);
            Run(run, ms + [m]) == Ran(outcome.book, Run(run, ms).batches + [outcome.batch])
  {
    hide Apply;
    assert (ms + [m])[..|ms|] == ms;
  }

  lemma LoadedJournal(h: Header, commands: seq<Command>)
    requires KnowsInstruments(h) && Fits(h, commands)
    ensures WellFormed(h) && |commands| <= h.maxCommands
    ensures forall k | 0 <= k < |commands| :: ContextError(h, commands[k], k + 1).None?
  {
    hide Journal;
    forall k | 0 <= k < |commands|
      ensures ContextError(h, commands[k], k + 1).None?
    {
      assert InContext(h, commands[k], k + 1);
    }
  }

  lemma StepSucceeds(h: Header, commands: seq<Command>, k: nat, before: Book, results: seq<Batch>)
    requires KnowsInstruments(h) && Fits(h, commands) && k < |commands|
    requires HasReplayed(h, commands[..k], before, results)
    ensures Positive(before) && Apply(h.run, before, MessageFrom(commands[k])).Done?
  {
    hide Apply, Fits, KnowsInstruments, MessageFrom, MessagesFrom, Run, RunSucceeds, Sound;
    PrefixSucceeds(h, commands, k);
    LastSucceeded(h.run, MessagesFrom(commands[..k]), MessageFrom(commands[k]));
  }

  lemma PrefixSucceeds(h: Header, commands: seq<Command>, k: nat)
    requires KnowsInstruments(h) && Fits(h, commands) && k < |commands|
    ensures RunSucceeds(h.run, MessagesFrom(commands[..k]) + [MessageFrom(commands[k])])
  {
    hide *;
    FitsPrefix(h, commands, k + 1);
    JournalReplays(h, commands[..k + 1]);
    assert commands[..k + 1] == commands[..k] + [commands[k]];
    MessagesSnoc(commands[..k], commands[k]);
  }

  lemma LastSucceeded(run: u64, ms: seq<Message>, m: Message)
    requires RunSucceeds(run, ms + [m])
    ensures RunSucceeds(run, ms) && Positive(Run(run, ms).book) && Apply(run, Run(run, ms).book, m).Done?
  {
    hide Apply;
    assert (ms + [m])[..|ms|] == ms;
  }
}
