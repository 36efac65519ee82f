/** What a client finds when it reads the messages back: each name with its value, in order. */
module JsonReading {
  import opened LittleEndian
  import opened Domain
  import opened ResultProjection
  import opened FixDecimal
  import opened ApplicationJson

  // ----- A reader that splits JSON text into quoted strings and single characters

  datatype Token = Mark(c: char) | Quote(raw: string)

  /** How far a string extends whose opening quote has been read; escapes hide what follows them. */
  function Scan(s: string): (k: nat)
    ensures k <= |s|
  {
    if s == [] || s[0] == '"' then 0
    else if s[0] == '\\' then if |s| < 2 then 1 else 2 + Scan(s[2..])
    else 1 + Scan(s[1..])
  }

  function Lex(s: string): Option<seq<Token>>
    decreases |s|
  {
    if s == [] then Some([])
    else if s[0] != '"' then Before(Mark(s[0]), Lex(s[1..]))
    else
      var k := Scan(s[1..]);
      if k + 1 >= |s| then None else Before(Quote(s[1..k + 1]), Lex(s[k + 2..]))
  }

  function Before(token: Token, rest: Option<seq<Token>>): Option<seq<Token>> {
    if rest.None? then None else Some([token] + rest.value)
  }

  ghost predicate Reads(text: string, tokens: seq<Token>) {
    Lex(text) == Some(tokens)
  }

  lemma {:induction false} ScanPrefix(s: string, more: string)
    requires Scan(s) < |s|
    ensures Scan(s + more) == Scan(s)
    decreases |s|
  {
    if s[0] != '"' {
      var n := if s[0] == '\\' then 2 else 1;
      if |s| >= n {
        assert (s + more)[n..] == s[n..] + more;
        ScanPrefix(s[n..], more);
      }
    }
  }

  /** Reading two texts one behind the other, the first of which ends outside of quotes. */
  lemma {:induction false} ReadsBoth(a: string, b: string, first: seq<Token>, second: seq<Token>)
    requires Reads(a, first) && Reads(b, second)
    ensures Reads(a + b, first + second)
    decreases |a|
  {
    if a == [] {
      assert a + b == b && first + second == second;
    } else if a[0] != '"' {
      assert (a + b)[1..] == a[1..] + b;
      ReadsBoth(a[1..], b, first[1..], second);
      assert first + second == [first[0]] + (first[1..] + second);
    } else {
      var k := Scan(a[1..]);
      ScanPrefix(a[1..], b);
      assert (a + b)[1..] == a[1..] + b && (a + b)[k + 2..] == a[k + 2..] + b;
      assert (a + b)[1..k + 1] == a[1..k + 1];
      ReadsBoth(a[k + 2..], b, first[1..], second);
      assert first + second == [first[0]] + (first[1..] + second);
    }
  }

  /** Text that may stand between quotes: no bare quote, no escape cut short. */
  predicate Closed(raw: string) {
    raw == [] ||
    (raw[0] != '"' && if raw[0] == '\\' then |raw| >= 2 && Closed(raw[2..]) else Closed(raw[1..]))
  }

  lemma {:induction false} ScanClosed(raw: string, rest: string)
    requires Closed(raw)
    ensures Scan(raw + ['"'] + rest) == |raw|
    decreases |raw|
  {
    var s := raw + ['"'] + rest;
    if raw != [] {
      var n := if raw[0] == '\\' then 2 else 1;
      assert s[n..] == raw[n..] + ['"'] + rest;
      ScanClosed(raw[n..], rest);
    }
  }

  lemma ReadsQuoted(raw: string)
    requires Closed(raw)
    ensures Reads(['"'] + raw + ['"'], [Quote(raw)])
  {
    var s := ['"'] + raw + ['"'];
    ScanClosed(raw, []);
    assert s[1..] == raw + ['"'] + [];
    assert s[1..|raw| + 1] == raw && s[|raw| + 2..] == [] && [Quote(raw)] + [] == [Quote(raw)];
  }

  predicate Plain(text: string) {
    forall k | 0 <= k < |text| :: text[k] != '"' && text[k] != '\\'
  }

  lemma {:induction false} PlainIsClosed(text: string)
    requires Plain(text)
    ensures Closed(text)
    decreases |text|
  {
    if text != [] {
      PlainIsClosed(text[1..]);
    }
  }

  lemma {:induction false} EscapedIsClosed(text: seq<byte>)
    ensures Closed(Escaped(text))
    decreases |text|
  {
    hide EscapedByte;
    if text != [] {
      EscapedFront(text);
      EscapedIsClosed(text[1..]);
      hide Escaped;
      EscapeThenClosed(text[0], Escaped(text[1..]));
    }
  }

  lemma EscapeThenClosed(b: byte, rest: string)
    requires Closed(rest)
    ensures Closed(EscapedByte(b) + rest)
  {
    var text := EscapedByte(b) + rest;
    if |EscapedByte(b)| == 6 {
      assert text[2..][1..][1..][1..][1..] == rest;
      assert Closed(text[2..][1..][1..][1..]);
      assert Closed(text[2..][1..][1..]);
      assert Closed(text[2..][1..]);
      assert Closed(text[2..]);
    } else {
      assert text[|EscapedByte(b)|..] == rest;
    }
  }

  lemma ReadsNumber(n: u64)
    ensures Reads(Quoted(n), [Quote(Decimal(n))])
  {
    hide Decimal;
    DecimalDenotes(n);
    PlainIsClosed(Decimal(n));
    ReadsQuoted(Decimal(n));
  }

  lemma ReadsName(name: string)
    requires Plain(name)
    ensures Reads(Name(name), [Quote(name)])
  {
    PlainIsClosed(name);
    ReadsQuoted(name);
  }

  lemma ReadsCommandId(id: seq<byte>)
    ensures Reads(JsonString(id), [Quote(Escaped(id))])
  {
    EscapedIsClosed(id);
    ReadsQuoted(Escaped(id));
  }

  function Marks(s: string): seq<Token> {
    seq(|s|, k requires 0 <= k < |s| => Mark(s[k]))
  }

  lemma {:induction false} ReadsMarks(s: string)
    requires forall k | 0 <= k < |s| :: s[k] != '"'
    ensures Reads(s, Marks(s))
    decreases |s|
  {
    if s != [] {
      ReadsMarks(s[1..]);
      assert Marks(s) == [Mark(s[0])] + Marks(s[1..]);
    }
  }

  /** What a name with its colon reads as. */
  function KeyTokens(before: string, name: string): seq<Token> {
    Marks(before) + [Quote(name)] + [Mark(':')]
  }

  lemma ReadsKey(before: string, name: string)
    requires (forall k | 0 <= k < |before| :: before[k] != '"') && Plain(name)
    ensures Reads(Key(before, name), KeyTokens(before, name))
  {
    hide Lex, Marks;
    PlainIsClosed(name);
    ReadsQuoted(name);
    ReadsMarks(before);
    ReadsBoth(before, ['"'] + name + ['"'], Marks(before), [Quote(name)]);
    ReadsColon();
    ReadsBoth(before + (['"'] + name + ['"']), [':'], Marks(before) + [Quote(name)], [Mark(':')]);
  }

  lemma ReadsColon()
    ensures Reads([':'], [Mark(':')]) && Reads(['}'], [Mark('}')]) && Reads([','], [Mark(',')])
  {
    ReadsMarks([':']);
    ReadsMarks(['}']);
    ReadsMarks([',']);
    hide Lex;
    assert Marks([':']) == [Mark(':')] && Marks(['}']) == [Mark('}')] && Marks([',']) == [Mark(',')];
  }

  // ----- The fragments the messages are made of

  lemma OrderKeys()
    ensures Reads(EVENT_ID_OPEN, KeyTokens("{", "exchangeRunId"))
    ensures Reads(COMMAND_SEQUENCE, KeyTokens(",", "commandSequence"))
    ensures Reads(EVENT_INDEX, KeyTokens(",", "eventIndex"))
    ensures Reads(PUBLIC_TRADE_OPEN, KeyTokens("{", "eventId"))
    ensures Reads(INSTRUMENT_ID, KeyTokens(",", "instrumentId"))
    ensures Reads(ORDER_ID, KeyTokens(",", "orderId"))
    ensures Reads(CLIENT_ID, KeyTokens(",", "clientId"))
    ensures Reads(SIDE, KeyTokens(",", "side"))
    ensures Reads(ROLE, KeyTokens(",", "role"))
    ensures Reads(PRICE, KeyTokens(",", "price"))
  {
    hide Reads, KeyTokens, Key;
    ReadsKey("{", "exchangeRunId");
    ReadsKey(",", "commandSequence");
    ReadsKey(",", "eventIndex");
    ReadsKey("{", "eventId");
    ReadsKey(",", "instrumentId");
    ReadsKey(",", "orderId");
    ReadsKey(",", "clientId");
    ReadsKey(",", "side");
    ReadsKey(",", "role");
    ReadsKey(",", "price");
  }

  lemma ResultKeys()
    ensures Reads(EXECUTION_PRICE, KeyTokens(",", "executionPrice"))
    ensures Reads(EXECUTION_QUANTITY, KeyTokens(",", "executionQuantity"))
    ensures Reads(REMAINING_QUANTITY, KeyTokens(",", "remainingQuantity"))
    ensures Reads(CANCELLED_QUANTITY, KeyTokens(",", "cancelledQuantity"))
    ensures Reads(REASON, KeyTokens(",", "reason"))
    ensures Reads(COMMAND_TYPE, KeyTokens(",", "commandType"))
    ensures Reads(CLIENT_COMMAND_ID, KeyTokens(",", "clientCommandId"))
    ensures Reads(RELEVANT_ORDER_ID, KeyTokens(",", "relevantOrderId"))
    ensures Reads(AGGRESSOR_SIDE, KeyTokens(",", "aggressorSide"))
    ensures Reads(RECIPIENT, KeyTokens(",", "recipientClientId"))
  {
    hide Reads, KeyTokens, Key;
    ReadsKey(",", "executionPrice");
    ReadsKey(",", "executionQuantity");
    ReadsKey(",", "remainingQuantity");
    ReadsKey(",", "cancelledQuantity");
    ReadsKey(",", "reason");
    ReadsKey(",", "commandType");
    ReadsKey(",", "clientCommandId");
    ReadsKey(",", "relevantOrderId");
    ReadsKey(",", "aggressorSide");
    ReadsKey(",", "recipientClientId");
  }

  /** One more name with its value. */
  function Field(name: string, value: string): seq<Token> {
    KeyTokens(",", name) + [Quote(value)]
  }

  lemma AddField(text: string, tokens: seq<Token>, key: string, name: string, value: string, raw: string)
    returns (longer: string, more: seq<Token>)
    requires Reads(text, tokens) && Reads(key, KeyTokens(",", name)) && Reads(value, [Quote(raw)])
    ensures longer == text + key + value && more == tokens + Field(name, raw) && Reads(longer, more)
  {
    hide Lex, KeyTokens;
    ReadsBoth(text, key, tokens, KeyTokens(",", name));
    ReadsBoth(text + key, value, tokens + KeyTokens(",", name), [Quote(raw)]);
    assert tokens + Field(name, raw) == tokens + KeyTokens(",", name) + [Quote(raw)];
    longer, more := text + key + value, tokens + Field(name, raw);
  }

  lemma AddNumber(text: string, tokens: seq<Token>, key: string, name: string, n: u64)
    returns (longer: string, more: seq<Token>)
    requires Reads(text, tokens) && Reads(key, KeyTokens(",", name))
    ensures longer == text + key + Quoted(n) && more == tokens + Field(name, Decimal(n)) && Reads(longer, more)
  {
    hide Reads, KeyTokens, Quoted, Decimal, Field;
    ReadsNumber(n);
    longer, more := AddField(text, tokens, key, name, Quoted(n), Decimal(n));
  }

  lemma AddName(text: string, tokens: seq<Token>, key: string, name: string, value: string)
    returns (longer: string, more: seq<Token>)
    requires Reads(text, tokens) && Reads(key, KeyTokens(",", name)) && Reads(Name(value), [Quote(value)])
    ensures longer == text + key + Name(value) && more == tokens + Field(name, value) && Reads(longer, more)
  {
    hide Reads, KeyTokens, Name, Field;
    longer, more := AddField(text, tokens, key, name, Name(value), value);
  }

  lemma ReadsMark(text: string, tokens: seq<Token>, c: char)
    requires Reads(text, tokens) && c != '"'
    ensures Reads(text + [c], tokens + [Mark(c)])
  {
    ReadsMarks([c]);
    assert Marks([c]) == [Mark(c)];
    ReadsBoth(text, [c], tokens, [Mark(c)]);
  }

  /** How an event that names its type starts. */
  function TypeTokens(name: string): seq<Token> {
    KeyTokens("{", "type") + [Quote(name)] + KeyTokens(",", "eventId")
  }

  lemma ReadsType(name: string)
    requires Plain(name)
    ensures Reads(EventOpen(name), TypeTokens(name))
  {
    hide Reads, KeyTokens, Key, Name;
    ReadsKey("{", "type");
    ReadsName(name);
    ReadsKey(",", "eventId");
    ReadsBoth(Key("{", "type"), Name(name), KeyTokens("{", "type"), [Quote(name)]);
    ReadsBoth(Key("{", "type") + Name(name), Key(",", "eventId"), KeyTokens("{", "type") + [Quote(name)],
              KeyTokens(",", "eventId"));
  }

  lemma EventOpens()
    ensures Reads(PRIVATE_TRADE_OPEN, TypeTokens("privateTrade"))
    ensures Reads(ORDER_RESTED_OPEN, TypeTokens("orderRested"))
    ensures Reads(ORDER_CANCELLED_OPEN, TypeTokens("orderCancelled"))
    ensures Reads(COMMAND_REJECTED_OPEN, TypeTokens("commandRejected"))
  {
    hide Reads, TypeTokens, EventOpen;
    ReadsType("privateTrade");
    ReadsType("orderRested");
    ReadsType("orderCancelled");
    ReadsType("commandRejected");
  }

  lemma ReadsSide(side: Side)
    ensures Reads(Name(SideName(side)), [Quote(SideName(side))])
  {
    ReadsName(SideName(side));
  }

  lemma ReadsRole(role: TradeRole)
    ensures Reads(Name(RoleName(role)), [Quote(RoleName(role))])
  {
    ReadsName(RoleName(role));
  }

  lemma ReadsCommandType(t: CommandType)
    ensures Reads(Name(CommandTypeName(t)), [Quote(CommandTypeName(t))])
  {
    ReadsName(CommandTypeName(t));
  }

  lemma ReadsCancelReason(r: CancelReason)
    ensures Reads(Name(CancelReasonName(r)), [Quote(CancelReasonName(r))])
  {
    ReadsName(CancelReasonName(r));
  }

  lemma ReadsRejection(r: RejectionReason)
    ensures Reads(Name(RejectionName(r)), [Quote(RejectionName(r))])
  {
    hide Reads, Name;
    match r {
      case OrderNotActive => ReadsName("ORDER_NOT_ACTIVE");
      case NotOwner => ReadsName("NOT_OWNER");
      case BookCapacityExceeded => ReadsName("BOOK_CAPACITY_EXCEEDED");
    }
  }

  // ----- Events

  function EventIdTokens(id: EventId): seq<Token> {
    KeyTokens("{", "exchangeRunId") + [Quote(Decimal(id.run))] + Field("commandSequence", Decimal(id.sequence)) +
    KeyTokens(",", "eventIndex") + Marks(Decimal(id.index)) + [Mark('}')]
  }

  lemma ReadsEventId(id: EventId)
    ensures Reads(EventIdJson(id), EventIdTokens(id))
  {
    hide Reads, KeyTokens, Field, Marks, Decimal, Quoted, EVENT_ID_OPEN, COMMAND_SEQUENCE, EVENT_INDEX;
    OrderKeys();
    ReadsNumber(id.run);
    DecimalDenotes(id.index);
    ReadsMarks(Decimal(id.index));
    var text, tokens := EVENT_ID_OPEN + Quoted(id.run), KeyTokens("{", "exchangeRunId") + [Quote(Decimal(id.run))];
    ReadsBoth(EVENT_ID_OPEN, Quoted(id.run), KeyTokens("{", "exchangeRunId"), [Quote(Decimal(id.run))]);
    text, tokens := AddNumber(text, tokens, COMMAND_SEQUENCE, "commandSequence", id.sequence);
    ReadsBoth(text, EVENT_INDEX, tokens, KeyTokens(",", "eventIndex"));
    text, tokens := text + EVENT_INDEX, tokens + KeyTokens(",", "eventIndex");
    ReadsBoth(text, Decimal(id.index), tokens, Marks(Decimal(id.index)));
    ReadsMark(text + Decimal(id.index), tokens + Marks(Decimal(id.index)), '}');
  }

  lemma StartEvent(open: string, openTokens: seq<Token>, id: EventId) returns (text: string, tokens: seq<Token>)
    requires Reads(open, openTokens)
    ensures text == open + EventIdJson(id) && tokens == openTokens + EventIdTokens(id) && Reads(text, tokens)
  {
    hide Reads;
    ReadsEventId(id);
    ReadsBoth(open, EventIdJson(id), openTokens, EventIdTokens(id));
    text, tokens := open + EventIdJson(id), openTokens + EventIdTokens(id);
  }

  function PublicTradeTokens(t: PublicTrade): seq<Token>
  {
    KeyTokens("{", "eventId") + EventIdTokens(t.eventId) +
    Field("instrumentId", Decimal(t.instrumentId)) +
    Field("executionPrice", Decimal(t.executionPrice)) +
    Field("executionQuantity", Decimal(t.executionQuantity)) +
    Field("aggressorSide", if t.aggressorSide.Buy? then "BUY" else "SELL") + [Mark('}')]
  }

  lemma ReadsPublicTrade(t: PublicTrade)
    ensures Reads(PublicTradeJson(t), PublicTradeTokens(t))
  {
    hide Reads, TypeTokens, KeyTokens, Field, EventIdTokens, EventIdJson, Decimal, Quoted, Name, AGGRESSOR_SIDE,
         EXECUTION_PRICE, EXECUTION_QUANTITY, INSTRUMENT_ID, PUBLIC_TRADE_OPEN;
    OrderKeys();
    ResultKeys();
    var text, tokens := StartEvent(PUBLIC_TRADE_OPEN, KeyTokens("{", "eventId"), t.eventId);
    text, tokens := AddNumber(text, tokens, INSTRUMENT_ID, "instrumentId", t.instrumentId);
    text, tokens := AddNumber(text, tokens, EXECUTION_PRICE, "executionPrice", t.executionPrice);
    text, tokens := AddNumber(text, tokens, EXECUTION_QUANTITY, "executionQuantity", t.executionQuantity);
    ReadsSide(t.aggressorSide);
    text, tokens := AddName(text, tokens, AGGRESSOR_SIDE, "aggressorSide", SideName(t.aggressorSide));
    ReadsMark(text, tokens, '}');
  }

  function PrivateTradeTokens(e: PrivateEvent): seq<Token>
    requires e.PrivateTrade?
  {
    TypeTokens("privateTrade") + EventIdTokens(e.eventId) +
    Field("instrumentId", Decimal(e.instrumentId)) +
    Field("orderId", Decimal(e.orderId)) +
    Field("side", if e.side.Buy? then "BUY" else "SELL") +
    Field("role", if e.role.Maker? then "MAKER" else "TAKER") +
    Field("executionPrice", Decimal(e.executionPrice)) +
    Field("executionQuantity", Decimal(e.executionQuantity)) +
    Field("remainingQuantity", Decimal(e.remainingQuantity)) + [Mark('}')]
  }

  lemma ReadsPrivateTrade(e: PrivateEvent)
    requires e.PrivateTrade?
    ensures Reads(PrivateEventJson(e), PrivateTradeTokens(e))
  {
    hide Reads, TypeTokens, KeyTokens, Field, EventIdTokens, EventIdJson, Decimal, Quoted, Name, EXECUTION_PRICE,
         EXECUTION_QUANTITY, INSTRUMENT_ID, ORDER_ID, PRIVATE_TRADE_OPEN, REMAINING_QUANTITY, ROLE, SIDE;
    EventOpens();
    OrderKeys();
    ResultKeys();
    var text, tokens := StartEvent(PRIVATE_TRADE_OPEN, TypeTokens("privateTrade"), e.eventId);
    text, tokens := AddNumber(text, tokens, INSTRUMENT_ID, "instrumentId", e.instrumentId);
    text, tokens := AddNumber(text, tokens, ORDER_ID, "orderId", e.orderId);
    ReadsSide(e.side);
    text, tokens := AddName(text, tokens, SIDE, "side", SideName(e.side));
    ReadsRole(e.role);
    text, tokens := AddName(text, tokens, ROLE, "role", RoleName(e.role));
    text, tokens := AddNumber(text, tokens, EXECUTION_PRICE, "executionPrice", e.executionPrice);
    text, tokens := AddNumber(text, tokens, EXECUTION_QUANTITY, "executionQuantity", e.executionQuantity);
    text, tokens := AddNumber(text, tokens, REMAINING_QUANTITY, "remainingQuantity", e.remainingQuantity);
    ReadsMark(text, tokens, '}');
  }

  function OrderRestedTokens(e: Event): seq<Token>
    requires e.OrderRested?
  {
    TypeTokens("orderRested") + EventIdTokens(e.eventId) +
    Field("orderId", Decimal(e.orderId)) +
    Field("clientId", Decimal(e.clientId)) +
    Field("instrumentId", Decimal(e.instrumentId)) +
    Field("side", if e.side.Buy? then "BUY" else "SELL") +
    Field("price", Decimal(e.price)) +
    Field("remainingQuantity", Decimal(e.remainingQuantity)) + [Mark('}')]
  }

  lemma ReadsOrderRested(e: Event)
    requires e.OrderRested?
    ensures Reads(PrivateEventJson(Forwarded(e)), OrderRestedTokens(e))
  {
    hide Reads, TypeTokens, KeyTokens, Field, EventIdTokens, EventIdJson, Decimal, Quoted, Name, CLIENT_ID,
         INSTRUMENT_ID, ORDER_ID, ORDER_RESTED_OPEN, PRICE, REMAINING_QUANTITY, SIDE;
    EventOpens();
    OrderKeys();
    ResultKeys();
    var text, tokens := StartEvent(ORDER_RESTED_OPEN, TypeTokens("orderRested"), e.eventId);
    text, tokens := AddNumber(text, tokens, ORDER_ID, "orderId", e.orderId);
    text, tokens := AddNumber(text, tokens, CLIENT_ID, "clientId", e.clientId);
    text, tokens := AddNumber(text, tokens, INSTRUMENT_ID, "instrumentId", e.instrumentId);
    ReadsSide(e.side);
    text, tokens := AddName(text, tokens, SIDE, "side", SideName(e.side));
    text, tokens := AddNumber(text, tokens, PRICE, "price", e.price);
    text, tokens := AddNumber(text, tokens, REMAINING_QUANTITY, "remainingQuantity", e.remainingQuantity);
    ReadsMark(text, tokens, '}');
  }

  function OrderCancelledTokens(e: Event): seq<Token>
    requires e.OrderCancelled?
  {
    TypeTokens("orderCancelled") + EventIdTokens(e.eventId) +
    Field("orderId", Decimal(e.orderId)) +
    Field("clientId", Decimal(e.clientId)) +
    Field("instrumentId", Decimal(e.instrumentId)) +
    Field("cancelledQuantity", Decimal(e.cancelledQuantity)) +
    Field("reason", if e.reason.ClientRequested? then "CLIENT_REQUESTED" else "IOC_REMAINDER") + [Mark('}')]
  }

  lemma ReadsOrderCancelled(e: Event)
    requires e.OrderCancelled?
    ensures Reads(PrivateEventJson(Forwarded(e)), OrderCancelledTokens(e))
  {
    hide Reads, TypeTokens, KeyTokens, Field, EventIdTokens, EventIdJson, Decimal, Quoted, Name, CANCELLED_QUANTITY,
         CLIENT_ID, INSTRUMENT_ID, ORDER_CANCELLED_OPEN, ORDER_ID, REASON;
    EventOpens();
    OrderKeys();
    ResultKeys();
    var text, tokens := StartEvent(ORDER_CANCELLED_OPEN, TypeTokens("orderCancelled"), e.eventId);
    text, tokens := AddNumber(text, tokens, ORDER_ID, "orderId", e.orderId);
    text, tokens := AddNumber(text, tokens, CLIENT_ID, "clientId", e.clientId);
    text, tokens := AddNumber(text, tokens, INSTRUMENT_ID, "instrumentId", e.instrumentId);
    text, tokens := AddNumber(text, tokens, CANCELLED_QUANTITY, "cancelledQuantity", e.cancelledQuantity);
    ReadsCancelReason(e.reason);
    text, tokens := AddName(text, tokens, REASON, "reason", CancelReasonName(e.reason));
    ReadsMark(text, tokens, '}');
  }

  function CommandRejectedTokens(e: Event): seq<Token>
    requires e.CommandRejected?
  {
    TypeTokens("commandRejected") + EventIdTokens(e.eventId) +
    Field("commandType", if e.commandType.NewOrderCommand? then "NEW_ORDER" else "CANCEL") +
    Field("clientId", Decimal(e.clientId)) +
    Field("clientCommandId", Escaped(e.clientCommandId)) +
    Field("relevantOrderId", Decimal(e.relevantOrderId)) +
    Field("reason", if e.rejection.OrderNotActive? then "ORDER_NOT_ACTIVE"
                    else if e.rejection.NotOwner? then "NOT_OWNER" else "BOOK_CAPACITY_EXCEEDED") + [Mark('}')]
  }

  lemma ReadsCommandRejected(e: Event)
    requires e.CommandRejected?
    ensures Reads(PrivateEventJson(Forwarded(e)), CommandRejectedTokens(e))
  {
    hide Reads, TypeTokens, KeyTokens, Field, EventIdTokens, EventIdJson, Decimal, Quoted, Name, JsonString, Escaped,
         CLIENT_COMMAND_ID, CLIENT_ID, COMMAND_REJECTED_OPEN, COMMAND_TYPE, REASON, RELEVANT_ORDER_ID;
    EventOpens();
    OrderKeys();
    ResultKeys();
    var text, tokens := StartEvent(COMMAND_REJECTED_OPEN, TypeTokens("commandRejected"), e.eventId);
    ReadsCommandType(e.commandType);
    text, tokens := AddName(text, tokens, COMMAND_TYPE, "commandType", CommandTypeName(e.commandType));
    text, tokens := AddNumber(text, tokens, CLIENT_ID, "clientId", e.clientId);
    ReadsCommandId(e.clientCommandId);
    text, tokens := AddField(text, tokens, CLIENT_COMMAND_ID, "clientCommandId", JsonString(e.clientCommandId),
                             Escaped(e.clientCommandId));
    text, tokens := AddNumber(text, tokens, RELEVANT_ORDER_ID, "relevantOrderId", e.relevantOrderId);
    ReadsRejection(e.rejection);
    text, tokens := AddName(text, tokens, REASON, "reason", RejectionName(e.rejection));
    ReadsMark(text, tokens, '}');
  }

  function PrivateEventTokens(e: PrivateEvent): seq<Token>
    requires e.Forwarded? ==> !e.event.Trade?
  {
    if e.PrivateTrade? then PrivateTradeTokens(e)
    else if e.event.OrderRested? then OrderRestedTokens(e.event)
    else if e.event.OrderCancelled? then OrderCancelledTokens(e.event)
    else CommandRejectedTokens(e.event)
  }

  lemma ReadsPrivateEvent(e: PrivateEvent)
    requires e.Forwarded? ==> !e.event.Trade?
    ensures Reads(PrivateEventJson(e), PrivateEventTokens(e))
  {
    hide Reads, PrivateEventJson, PrivateTradeTokens, OrderRestedTokens, OrderCancelledTokens, CommandRejectedTokens;
    if e.PrivateTrade? {
      ReadsPrivateTrade(e);
    } else if e.event.OrderRested? {
      ReadsOrderRested(e.event);
    } else if e.event.OrderCancelled? {
      ReadsOrderCancelled(e.event);
    } else {
      ReadsCommandRejected(e.event);
    }
  }

  // ----- Whole messages

  /** One more item of a list, behind a comma unless it is the first. */
  lemma ReadsItem(first: bool, text: string, tokens: seq<Token>, item: string, itemTokens: seq<Token>)
    requires Reads(text, tokens) && Reads(item, itemTokens)
    ensures Reads((if first then [] else text + [',']) + item, (if first then [] else tokens + [Mark(',')]) + itemTokens)
  {
    ReadsMarks([]);
    hide Reads;
    ReadsMark(text, tokens, ',');
    ReadsBoth(text + [','], item, tokens + [Mark(',')], itemTokens);
    assert [] + item == item && [] + itemTokens == itemTokens;
  }

  /** The trades of a message, separated by commas. */
  function TradesTokens(trades: seq<PublicTrade>): seq<Token> {
    if trades == [] then []
    else
      (if |trades| == 1 then [] else TradesTokens(trades[..|trades| - 1]) + [Mark(',')]) +
      PublicTradeTokens(trades[|trades| - 1])
  }

  lemma {:induction false} ReadsTrades(trades: seq<PublicTrade>)
    ensures Reads(TradesJson(trades), TradesTokens(trades))
    decreases |trades|
  {
    ReadsMarks([]);
    hide Reads, PublicTradeJson, PublicTradeTokens;
    if trades != [] {
      var front, last := trades[..|trades| - 1], trades[|trades| - 1];
      ReadsPublicTrade(last);
      ReadsTrades(front);
      ReadsItem(|trades| == 1, TradesJson(front), TradesTokens(front), PublicTradeJson(last), PublicTradeTokens(last));
    }
  }

  ghost function EventsTokens(events: seq<PrivateEvent>): seq<Token>
    requires Serializable(events)
  {
    if events == [] then []
    else
      (if |events| == 1 then [] else EventsTokens(events[..|events| - 1]) + [Mark(',')]) +
      PrivateEventTokens(events[|events| - 1])
  }

  lemma FrontIsSerializable(events: seq<PrivateEvent>)
    requires Serializable(events) && events != []
    ensures Serializable(events[..|events| - 1])
    ensures events[|events| - 1].Forwarded? ==> !events[|events| - 1].event.Trade?
  {
  }

  lemma {:induction false} ReadsEvents(events: seq<PrivateEvent>)
    requires Serializable(events)
    ensures Reads(PrivateEventsJson(events), EventsTokens(events))
    decreases |events|
  {
    ReadsMarks([]);
    hide Reads, PrivateEventJson, PrivateEventTokens, Serializable;
    if events != [] {
      var front, last := events[..|events| - 1], events[|events| - 1];
      FrontIsSerializable(events);
      ReadsPrivateEvent(last);
      ReadsEvents(front);
      ReadsItem(|events| == 1, PrivateEventsJson(front), EventsTokens(front), PrivateEventJson(last),
                PrivateEventTokens(last));
    }
  }

  /** How a message starts: its schema, its type and the run. */
  function HeadTokens(name: string, run: u64): seq<Token> {
    KeyTokens("{", "schemaVersion") + Marks("1") + KeyTokens(",", "type") + [Quote(name)] +
    KeyTokens(",", "exchangeRunId") + [Quote(Decimal(run))]
  }

  lemma ReadsHead(name: string, run: u64)
    requires Plain(name)
    ensures Reads(MessageOpen(name) + Quoted(run), HeadTokens(name, run))
  {
    hide Reads, KeyTokens, Key, Name, Marks, Quoted, Decimal;
    ReadsKey("{", "schemaVersion");
    ReadsMarks("1");
    ReadsKey(",", "type");
    ReadsName(name);
    ReadsKey(",", "exchangeRunId");
    ReadsNumber(run);
    var text, tokens := Key("{", "schemaVersion"), KeyTokens("{", "schemaVersion");
    ReadsBoth(text, "1", tokens, Marks("1"));
    text, tokens := text + "1", tokens + Marks("1");
    ReadsBoth(text, Key(",", "type"), tokens, KeyTokens(",", "type"));
    text, tokens := text + Key(",", "type"), tokens + KeyTokens(",", "type");
    ReadsBoth(text, Name(name), tokens, [Quote(name)]);
    text, tokens := text + Name(name), tokens + [Quote(name)];
    ReadsBoth(text, Key(",", "exchangeRunId"), tokens, KeyTokens(",", "exchangeRunId"));
    ReadsBoth(text + Key(",", "exchangeRunId"), Quoted(run), tokens + KeyTokens(",", "exchangeRunId"),
              [Quote(Decimal(run))]);
  }

  /** A list under a name, and the end of the message behind it. */
  function ListTokens(name: string, items: seq<Token>): seq<Token> {
    KeyTokens(",", name) + [Mark('[')] + items + [Mark(']')] + [Mark('}')]
  }

  lemma ReadsList(text: string, tokens: seq<Token>, open: string, name: string, items: string, itemTokens: seq<Token>)
    requires Reads(text, tokens) && Reads(items, itemTokens) && Plain(name) && open == Key(",", name) + "["
    ensures Reads(text + open + items + CLOSE, tokens + ListTokens(name, itemTokens))
  {
    ReadsMarks("]}");
    assert Marks("]}") == [Mark(']')] + [Mark('}')];
    hide Reads, KeyTokens, Key, Marks;
    ReadsKey(",", name);
    ReadsMark(Key(",", name), KeyTokens(",", name), '[');
    ReadsBoth(text, open, tokens, KeyTokens(",", name) + [Mark('[')]);
    ReadsBoth(text + open, items, tokens + (KeyTokens(",", name) + [Mark('[')]), itemTokens);
    ReadsBoth(text + open + items, CLOSE, tokens + (KeyTokens(",", name) + [Mark('[')]) + itemTokens,
              [Mark(']')] + [Mark('}')]);
    assert tokens + (KeyTokens(",", name) + [Mark('[')]) + itemTokens + ([Mark(']')] + [Mark('}')]) ==
           tokens + ListTokens(name, itemTokens);
  }

  function PublicMessageTokens(run: u64, trades: seq<PublicTrade>): seq<Token> {
    HeadTokens("publicTrades", run) + ListTokens("trades", TradesTokens(trades))
  }

  /** A client that reads a public message finds every trade with its own fields. */
  lemma ReadsPublicMessage(run: u64, trades: seq<PublicTrade>)
    ensures Reads(PublicMessage(run, trades), PublicMessageTokens(run, trades))
  {
    hide Reads, HeadTokens, ListTokens, TradesTokens, TradesJson, Quoted, Key, MessageOpen, CLOSE;
    ReadsHead("publicTrades", run);
    ReadsTrades(trades);
    ReadsList(PUBLIC_OPEN + Quoted(run), HeadTokens("publicTrades", run), TRADES_OPEN, "trades", TradesJson(trades),
              TradesTokens(trades));
  }

  function CorrelationTokens(correlation: Option<Correlation>): seq<Token> {
    if correlation.None? then []
    else
      KeyTokens(",", "correlation") + KeyTokens("{", "exchangeRunId") + [Quote(Decimal(correlation.value.run))] +
      Field("clientId", Decimal(correlation.value.clientId)) +
      Field("clientCommandId", Escaped(correlation.value.clientCommandId)) +
      Field("commandSequence", Decimal(correlation.value.sequence)) + [Mark('}')]
  }

  lemma ReadsCorrelation(correlation: Option<Correlation>)
    ensures Reads(CorrelationJson(correlation), CorrelationTokens(correlation))
  {
    ReadsMarks([]);
    ReadsCorrelationOpen();
    hide Reads, KeyTokens, Field, Decimal, Quoted, Escaped, JsonString, CORRELATION_OPEN, CLIENT_ID, CLIENT_COMMAND_ID,
         COMMAND_SEQUENCE;
    if correlation.Some? {
      var c := correlation.value;
      OrderKeys();
      ResultKeys();
      ReadsNumber(c.run);
      var open := KeyTokens(",", "correlation") + KeyTokens("{", "exchangeRunId");
      ReadsBoth(CORRELATION_OPEN, Quoted(c.run), open, [Quote(Decimal(c.run))]);
      var text, tokens := CORRELATION_OPEN + Quoted(c.run), open + [Quote(Decimal(c.run))];
      text, tokens := AddNumber(text, tokens, CLIENT_ID, "clientId", c.clientId);
      ReadsCommandId(c.clientCommandId);
      text, tokens := AddField(text, tokens, CLIENT_COMMAND_ID, "clientCommandId", JsonString(c.clientCommandId),
                               Escaped(c.clientCommandId));
      text, tokens := AddNumber(text, tokens, COMMAND_SEQUENCE, "commandSequence", c.sequence);
      ReadsMark(text, tokens, '}');
    }
  }

  lemma ReadsCorrelationOpen()
    ensures Reads(CORRELATION_OPEN, KeyTokens(",", "correlation") + KeyTokens("{", "exchangeRunId"))
  {
    hide Reads, KeyTokens, Key;
    ReadsKey(",", "correlation");
    ReadsKey("{", "exchangeRunId");
    ReadsBoth(Key(",", "correlation"), Key("{", "exchangeRunId"), KeyTokens(",", "correlation"),
              KeyTokens("{", "exchangeRunId"));
  }

  ghost function PrivateMessageTokens(run: u64, result: RecipientResult): seq<Token>
    requires Serializable(result.privateResult)
  {
    HeadTokens("privateResult", run) + Field("recipientClientId", Decimal(result.recipient)) +
    CorrelationTokens(result.correlation) + ListTokens("events", EventsTokens(result.privateResult))
  }

  /** A client that reads a private message finds itself, its command if it is its own, and every event it was told. */
  lemma ReadsPrivateMessage(run: u64, result: RecipientResult)
    requires Serializable(result.privateResult)
    ensures Reads(PrivateMessage(run, result), PrivateMessageTokens(run, result))
  {
    hide Reads, HeadTokens, ListTokens, Field, KeyTokens, EventsTokens, PrivateEventsJson, CorrelationJson, Quoted, Key,
         MessageOpen, CLOSE, CorrelationTokens, Decimal, RECIPIENT, Serializable;
    ReadsHead("privateResult", run);
    ResultKeys();
    ReadsCorrelation(result.correlation);
    ReadsEvents(result.privateResult);
    var text, tokens := PRIVATE_OPEN + Quoted(run), HeadTokens("privateResult", run);
    text, tokens := AddNumber(text, tokens, RECIPIENT, "recipientClientId", result.recipient);
    ReadsBoth(text, CorrelationJson(result.correlation), tokens, CorrelationTokens(result.correlation));
    ReadsList(text + CorrelationJson(result.correlation), tokens + CorrelationTokens(result.correlation), EVENTS_OPEN,
              "events", PrivateEventsJson(result.privateResult), EventsTokens(result.privateResult));
  }
}
