/** The messages sent to application clients, and the largest a controller result can become. */
module ApplicationJson {
  import opened LittleEndian
  import opened Domain
  import opened PriceTimeTheorems
  import opened ResultProjection
  import opened FixDecimal

  // ----- Numbers and strings

  function DigitChar(d: nat): (c: char)
    requires d < 10
    ensures IsDigit(c) && DigitOf(c) == d
  {
    ('0' as int + d) as char
  }

  function Decimal(n: nat): string {
    if n < 10 then [DigitChar(n)] else Decimal(n / 10) + [DigitChar(n % 10)]
  }

  /** The printed number reads back as itself, without leading zeros. */
  lemma {:induction false} DecimalDenotes(n: nat)
    ensures AllDigits(Decimal(n)) && Digits(Decimal(n)) == n
    ensures Decimal(n) != [] && (n > 0 ==> Decimal(n)[0] != '0')
    decreases n
  {
    if n >= 10 {
      DecimalDenotes(n / 10);
      var front := Decimal(n / 10);
      assert Decimal(n)[..|Decimal(n)| - 1] == front;
    }
  }

  lemma {:induction false} DecimalLength(n: nat, k: nat)
    requires 1 <= k && n < Pow(k)
    ensures |Decimal(n)| <= k
    decreases k
  {
    if n >= 10 {
      DecimalLength(n / 10, k - 1);
    }
  }

  function Quoted(n: u64): string {
    ['"'] + Decimal(n) + ['"']
  }

  lemma QuotedLength(n: u64)
    ensures |Quoted(n)| <= QUOTED_UINT64_BYTES
  {
    PowBound(20);
    DecimalLength(n, 20);
  }

  function HexChar(d: nat): char
    requires d < 16
  {
    if d < 10 then ('0' as int + d) as char else ('a' as int + d - 10) as char
  }

  /** Escaping as section 7 of RFC 8259 requires it, and of the delete character besides. */
  function EscapedByte(b: byte): (text: string)
    ensures 1 <= |text| <= 6
  {
    if b == 0x22 then ['\\', '"']
    else if b == 0x5c then ['\\', '\\']
    else if b == 0x08 then ['\\', 'b']
    else if b == 0x0c then ['\\', 'f']
    else if b == 0x0a then ['\\', 'n']
    else if b == 0x0d then ['\\', 'r']
    else if b == 0x09 then ['\\', 't']
    else if b < 0x20 || b == 0x7f then ['\\', 'u', '0', '0', HexChar(b / 16), HexChar(b % 16)]
    else [b as char]
  }

  function Escaped(text: seq<byte>): string {
    if text == [] then [] else Escaped(text[..|text| - 1]) + EscapedByte(text[|text| - 1])
  }

  function JsonString(text: seq<byte>): string {
    ['"'] + Escaped(text) + ['"']
  }

  method AppendJsonString(output: string, text: seq<byte>) returns (appended: string)
    ensures appended == output + JsonString(text)
  {
    hide EscapedByte;
    appended := output + ['"'];
    var i := 0;
    while i < |text|
      invariant 0 <= i <= |text| && appended == output + ['"'] + Escaped(text[..i])
    {
      assert text[..i + 1][..i] == text[..i];
      assert Escaped(text[..i + 1]) == Escaped(text[..i]) + EscapedByte(text[i]);
      appended := appended + EscapedByte(text[i]);
      i := i + 1;
    }
    assert text[..i] == text;
    appended := appended + ['"'];
  }

  lemma {:induction false} EscapedLength(text: seq<byte>)
    ensures |Escaped(text)| <= 6 * |text|
    decreases |text|
  {
    if text != [] {
      EscapedLength(text[..|text| - 1]);
    }
  }

  lemma CommandIdLength(id: ClientCommandId)
    ensures |JsonString(id)| <= MAX_ESCAPED_COMMAND_ID_BYTES
  {
    EscapedLength(id);
  }

  /** What a JSON reader makes of the escapes this program writes; `None` outside of them. */
  function Unescaped(text: string): Option<seq<nat>>
    decreases |text|
  {
    if text == [] then Some([])
    else if text[0] == '"' || text[0] as int < 0x20 then None
    else if text[0] != '\\' then Prepend(text[0] as int, Unescaped(text[1..]))
    else if |text| < 2 then None
    else if text[1] == '"' || text[1] == '\\' then Prepend(text[1] as int, Unescaped(text[2..]))
    else if text[1] == 'b' then Prepend(0x08, Unescaped(text[2..]))
    else if text[1] == 'f' then Prepend(0x0c, Unescaped(text[2..]))
    else if text[1] == 'n' then Prepend(0x0a, Unescaped(text[2..]))
    else if text[1] == 'r' then Prepend(0x0d, Unescaped(text[2..]))
    else if text[1] == 't' then Prepend(0x09, Unescaped(text[2..]))
    else if text[1] != 'u' || |text| < 6 then None
    else
      var a, b, c, d := HexValue(text[2]), HexValue(text[3]), HexValue(text[4]), HexValue(text[5]);
      if a == 16 || b == 16 || c == 16 || d == 16 then None
      else Prepend(((a * 16 + b) * 16 + c) * 16 + d, Unescaped(text[6..]))
  }

  function Prepend(unit: nat, rest: Option<seq<nat>>): Option<seq<nat>> {
    if rest.None? then None else Some([unit] + rest.value)
  }

  /** 16 stands for anything that is not a hexadecimal digit. */
  function HexValue(c: char): nat {
    if '0' <= c <= '9' then c as int - '0' as int
    else if 'a' <= c <= 'f' then c as int - 'a' as int + 10
    else if 'A' <= c <= 'F' then c as int - 'A' as int + 10
    else 16
  }

  lemma HexRoundTrip(d: nat)
    requires d < 16
    ensures HexValue(HexChar(d)) == d
  {
  }

  lemma UnescapeHex(high: nat, low: nat, rest: string)
    requires high < 16 && low < 16
    ensures Unescaped(['\\', 'u', '0', '0', HexChar(high), HexChar(low)] + rest) == Prepend(high * 16 + low, Unescaped(rest))
  {
    hide HexChar;
    var text := ['\\', 'u', '0', '0', HexChar(high), HexChar(low)] + rest;
    assert text[6..] == rest && text[2] == '0' && text[3] == '0';
    HexRoundTrip(high);
    HexRoundTrip(low);
  }

  lemma UnescapeOne(b: byte, rest: string)
    ensures Unescaped(EscapedByte(b) + rest) == Prepend(b, Unescaped(rest))
  {
    hide HexChar, HexValue;
    var text := EscapedByte(b) + rest;
    if |EscapedByte(b)| == 6 {
      UnescapeHex(b / 16, b % 16, rest);
      hide Unescaped;
    } else {
      assert text[|EscapedByte(b)|..] == rest;
    }
  }

  lemma {:induction false} EscapedFront(text: seq<byte>)
    requires text != []
    ensures Escaped(text) == EscapedByte(text[0]) + Escaped(text[1..])
    decreases |text|
  {
    hide EscapedByte;
    if |text| > 1 {
      var front := text[..|text| - 1];
      EscapedFront(front);
      assert text[1..][..|text| - 2] == front[1..];
    } else {
      assert text[..0] == text[1..] == [];
    }
  }

  /** A JSON reader gets back exactly the bytes that were escaped. */
  lemma {:induction false} UnescapeEscaped(text: seq<byte>)
    ensures Unescaped(Escaped(text)) == Some(text)
    decreases |text|
  {
    hide EscapedByte;
    if text == [] {
    } else {
      EscapedFront(text);
      hide Unescaped;
      UnescapeOne(text[0], Escaped(text[1..]));
      UnescapeEscaped(text[1..]);
      assert text == [text[0]] + text[1..];
    }
  }

  // ----- The capacity computed ahead of time

  const QUOTED_UINT64_BYTES: nat := 22
  const EVENT_INDEX_BYTES: nat := 4
  const MAX_ESCAPED_COMMAND_ID_BYTES: nat := 2 + 6 * MAX_CLIENT_COMMAND_ID_LENGTH
  const MAX_PRIVATE_EVENTS: nat := 2 * MAX_EVENTS_PER_COMMAND

  /** A name with its colon, behind some punctuation. */
  function Key(before: string, name: string): string {
    before + (['"'] + name + ['"']) + [':']
  }

  /** How an event that names its type starts. */
  function EventOpen(name: string): string {
    Key("{", "type") + Name(name) + Key(",", "eventId")
  }

  /** How a message starts. */
  function MessageOpen(name: string): string {
    Key("{", "schemaVersion") + "1" + Key(",", "type") + Name(name) + Key(",", "exchangeRunId")
  }

  const EVENT_ID_OPEN: string := Key("{", "exchangeRunId")
  const COMMAND_SEQUENCE: string := Key(",", "commandSequence")
  const EVENT_INDEX: string := Key(",", "eventIndex")
  const PRIVATE_TRADE_OPEN: string := EventOpen("privateTrade")
  const ORDER_RESTED_OPEN: string := EventOpen("orderRested")
  const ORDER_CANCELLED_OPEN: string := EventOpen("orderCancelled")
  const COMMAND_REJECTED_OPEN: string := EventOpen("commandRejected")
  const PUBLIC_TRADE_OPEN: string := Key("{", "eventId")
  const INSTRUMENT_ID: string := Key(",", "instrumentId")
  const ORDER_ID: string := Key(",", "orderId")
  const CLIENT_ID: string := Key(",", "clientId")
  const SIDE: string := Key(",", "side")
  const ROLE: string := Key(",", "role")
  const PRICE: string := Key(",", "price")
  const EXECUTION_PRICE: string := Key(",", "executionPrice")
  const EXECUTION_QUANTITY: string := Key(",", "executionQuantity")
  const REMAINING_QUANTITY: string := Key(",", "remainingQuantity")
  const CANCELLED_QUANTITY: string := Key(",", "cancelledQuantity")
  const REASON: string := Key(",", "reason")
  const COMMAND_TYPE: string := Key(",", "commandType")
  const CLIENT_COMMAND_ID: string := Key(",", "clientCommandId")
  const RELEVANT_ORDER_ID: string := Key(",", "relevantOrderId")
  const AGGRESSOR_SIDE: string := Key(",", "aggressorSide")
  const PRIVATE_OPEN: string := MessageOpen("privateResult")
  const PUBLIC_OPEN: string := MessageOpen("publicTrades")
  const RECIPIENT: string := Key(",", "recipientClientId")
  const CORRELATION_OPEN: string := Key(",", "correlation") + Key("{", "exchangeRunId")
  const EVENTS_OPEN: string := Key(",", "events") + "["
  const TRADES_OPEN: string := Key(",", "trades") + "["
  const CLOSE: string := "]}"

  const EVENT_ID_BYTES: nat :=
    |EVENT_ID_OPEN| + QUOTED_UINT64_BYTES + |COMMAND_SEQUENCE| + QUOTED_UINT64_BYTES + |EVENT_INDEX| + EVENT_INDEX_BYTES + 1
  const PRIVATE_TRADE_BYTES: nat :=
    |PRIVATE_TRADE_OPEN| + EVENT_ID_BYTES + |INSTRUMENT_ID| + QUOTED_UINT64_BYTES + |ORDER_ID| + QUOTED_UINT64_BYTES +
    |SIDE| + |Name("SELL")| + |ROLE| + |Name("MAKER")| + |EXECUTION_PRICE| + QUOTED_UINT64_BYTES +
    |EXECUTION_QUANTITY| + QUOTED_UINT64_BYTES + |REMAINING_QUANTITY| + QUOTED_UINT64_BYTES + 1
  const ORDER_RESTED_BYTES: nat :=
    |ORDER_RESTED_OPEN| + EVENT_ID_BYTES + |ORDER_ID| + QUOTED_UINT64_BYTES + |CLIENT_ID| + QUOTED_UINT64_BYTES +
    |INSTRUMENT_ID| + QUOTED_UINT64_BYTES + |SIDE| + |Name("SELL")| + |PRICE| + QUOTED_UINT64_BYTES +
    |REMAINING_QUANTITY| + QUOTED_UINT64_BYTES + 1
  const ORDER_CANCELLED_BYTES: nat :=
    |ORDER_CANCELLED_OPEN| + EVENT_ID_BYTES + |ORDER_ID| + QUOTED_UINT64_BYTES + |CLIENT_ID| + QUOTED_UINT64_BYTES +
    |INSTRUMENT_ID| + QUOTED_UINT64_BYTES + |CANCELLED_QUANTITY| + QUOTED_UINT64_BYTES + |REASON| +
    |Name("CLIENT_REQUESTED")| + 1
  const COMMAND_REJECTED_BYTES: nat :=
    |COMMAND_REJECTED_OPEN| + EVENT_ID_BYTES + |COMMAND_TYPE| + |Name("NEW_ORDER")| + |CLIENT_ID| + QUOTED_UINT64_BYTES +
    |CLIENT_COMMAND_ID| + MAX_ESCAPED_COMMAND_ID_BYTES + |RELEVANT_ORDER_ID| + QUOTED_UINT64_BYTES + |REASON| +
    |Name("BOOK_CAPACITY_EXCEEDED")| + 1
  const TWO_PRIVATE_TRADES_BYTES: nat := 2 * PRIVATE_TRADE_BYTES + 1
  const PRIVATE_ENVELOPE_BYTES: nat :=
    |PRIVATE_OPEN| + QUOTED_UINT64_BYTES + |RECIPIENT| + QUOTED_UINT64_BYTES + |CORRELATION_OPEN| + QUOTED_UINT64_BYTES +
    |CLIENT_ID| + QUOTED_UINT64_BYTES + |CLIENT_COMMAND_ID| + MAX_ESCAPED_COMMAND_ID_BYTES + |COMMAND_SEQUENCE| +
    QUOTED_UINT64_BYTES + 1 + |EVENTS_OPEN| + |CLOSE|
  const MAX_PRIVATE_MESSAGE_BYTES: nat :=
    PRIVATE_ENVELOPE_BYTES + MAX_PRIVATE_EVENTS * PRIVATE_TRADE_BYTES + (MAX_PRIVATE_EVENTS - 1)
  const PUBLIC_TRADE_BYTES: nat :=
    |PUBLIC_TRADE_OPEN| + EVENT_ID_BYTES + |INSTRUMENT_ID| + QUOTED_UINT64_BYTES + |EXECUTION_PRICE| +
    QUOTED_UINT64_BYTES + |EXECUTION_QUANTITY| + QUOTED_UINT64_BYTES + |AGGRESSOR_SIDE| + |Name("SELL")| + 1
  const PUBLIC_ENVELOPE_BYTES: nat := |PUBLIC_OPEN| + QUOTED_UINT64_BYTES + |TRADES_OPEN| + |CLOSE|
  const MAX_PUBLIC_MESSAGE_BYTES: nat :=
    PUBLIC_ENVELOPE_BYTES + MAX_EVENTS_PER_COMMAND * PUBLIC_TRADE_BYTES + (MAX_EVENTS_PER_COMMAND - 1)
  const MIN_OUTBOUND_CAPACITY: nat :=
    if MAX_PRIVATE_MESSAGE_BYTES > MAX_PUBLIC_MESSAGE_BYTES then MAX_PRIVATE_MESSAGE_BYTES else MAX_PUBLIC_MESSAGE_BYTES

  /** No other event takes more room than two trades and the comma between them. */
  lemma OtherEventsAreSmaller()
    ensures ORDER_RESTED_BYTES <= TWO_PRIVATE_TRADES_BYTES
    ensures ORDER_CANCELLED_BYTES <= TWO_PRIVATE_TRADES_BYTES
    ensures COMMAND_REJECTED_BYTES <= TWO_PRIVATE_TRADES_BYTES
  {
    assert |COMMAND_REJECTED_OPEN| == 36 && |COMMAND_TYPE| == 15 && |CLIENT_COMMAND_ID| == 19 && |RELEVANT_ORDER_ID| == 19;
    assert |REASON| == 10 && |Name("NEW_ORDER")| == 11 && |Name("BOOK_CAPACITY_EXCEEDED")| == 24 && |CLIENT_ID| == 12;
    assert |PRIVATE_TRADE_OPEN| == 33 && |INSTRUMENT_ID| == 16 && |ORDER_ID| == 11 && |EXECUTION_PRICE| == 18;
    assert |EXECUTION_QUANTITY| == 21 && |REMAINING_QUANTITY| == 21 && |ORDER_RESTED_OPEN| == 32;
    assert |ORDER_CANCELLED_OPEN| == 35 && |CANCELLED_QUANTITY| == 21 && |Name("CLIENT_REQUESTED")| == 18;
    assert |PRICE| == 9 && |SIDE| == 8 && |ROLE| == 8 && |Name("SELL")| == 6 && |Name("MAKER")| == 7;
    assert |EVENT_ID_OPEN| == 17 && |COMMAND_SEQUENCE| == 19 && |EVENT_INDEX| == 14;
  }

  // ----- The messages

  /** Enumerator names contain nothing that needs escaping. */
  function Name(name: string): string {
    ['"'] + name + ['"']
  }

  function SideName(side: Side): (name: string)
    ensures |name| <= |"SELL"|
  {
    if side.Buy? then "BUY" else "SELL"
  }

  function RoleName(role: TradeRole): (name: string)
    ensures |name| <= |"MAKER"|
  {
    if role.Maker? then "MAKER" else "TAKER"
  }

  function CommandTypeName(t: CommandType): (name: string)
    ensures |name| <= |"NEW_ORDER"|
  {
    if t.NewOrderCommand? then "NEW_ORDER" else "CANCEL"
  }

  function CancelReasonName(r: CancelReason): (name: string)
    ensures |name| <= |"CLIENT_REQUESTED"|
  {
    if r.ClientRequested? then "CLIENT_REQUESTED" else "IOC_REMAINDER"
  }

  function RejectionName(r: RejectionReason): (name: string)
    ensures |name| <= |"BOOK_CAPACITY_EXCEEDED"|
  {
    match r
    case OrderNotActive => "ORDER_NOT_ACTIVE"
    case NotOwner => "NOT_OWNER"
    case BookCapacityExceeded => "BOOK_CAPACITY_EXCEEDED"
  }

  function EventIdJson(id: EventId): string {
    EVENT_ID_OPEN + Quoted(id.run) + COMMAND_SEQUENCE + Quoted(id.sequence) + EVENT_INDEX + Decimal(id.index) + ['}']
  }

  function PublicTradeJson(t: PublicTrade): string {
    PUBLIC_TRADE_OPEN + EventIdJson(t.eventId) + INSTRUMENT_ID + Quoted(t.instrumentId) + EXECUTION_PRICE +
    Quoted(t.executionPrice) + EXECUTION_QUANTITY + Quoted(t.executionQuantity) + AGGRESSOR_SIDE +
    Name(SideName(t.aggressorSide)) + ['}']
  }

  /** Trades reach a client only as private trades, so a forwarded trade has no serialized form of its own. */
  function PrivateEventJson(e: PrivateEvent): string
    requires e.Forwarded? ==> !e.event.Trade?
  {
    match e
    case PrivateTrade(id, instrument, order, side, role, price, quantity, remaining) =>
      PRIVATE_TRADE_OPEN + EventIdJson(id) + INSTRUMENT_ID + Quoted(instrument) + ORDER_ID + Quoted(order) + SIDE +
      Name(SideName(side)) + ROLE + Name(RoleName(role)) + EXECUTION_PRICE + Quoted(price) + EXECUTION_QUANTITY +
      Quoted(quantity) + REMAINING_QUANTITY + Quoted(remaining) + ['}']
    case Forwarded(event) =>
      match event
      case OrderRested(id, order, client, instrument, side, price, remaining) =>
        ORDER_RESTED_OPEN + EventIdJson(id) + ORDER_ID + Quoted(order) + CLIENT_ID + Quoted(client) + INSTRUMENT_ID +
        Quoted(instrument) + SIDE + Name(SideName(side)) + PRICE + Quoted(price) + REMAINING_QUANTITY +
        Quoted(remaining) + ['}']
      case OrderCancelled(id, order, client, instrument, cancelled, reason) =>
        ORDER_CANCELLED_OPEN + EventIdJson(id) + ORDER_ID + Quoted(order) + CLIENT_ID + Quoted(client) +
        INSTRUMENT_ID + Quoted(instrument) + CANCELLED_QUANTITY + Quoted(cancelled) + REASON +
        Name(CancelReasonName(reason)) + ['}']
      case CommandRejected(id, commandType, client, commandId, order, reason) =>
        COMMAND_REJECTED_OPEN + EventIdJson(id) + COMMAND_TYPE + Name(CommandTypeName(commandType)) + CLIENT_ID +
        Quoted(client) + CLIENT_COMMAND_ID + JsonString(commandId) + RELEVANT_ORDER_ID + Quoted(order) + REASON +
        Name(RejectionName(reason)) + ['}']
  }

  // ----- Sizes of single events

  lemma EventIdLength(id: EventId)
    requires id.index < MAX_EVENTS_PER_COMMAND
    ensures |EventIdJson(id)| <= EVENT_ID_BYTES
  {
    QuotedLength(id.run);
    QuotedLength(id.sequence);
    PowTable();
    DecimalLength(id.index, 4);
    hide Quoted, Decimal, EVENT_ID_OPEN, COMMAND_SEQUENCE, EVENT_INDEX;
  }

  lemma PublicTradeLength(t: PublicTrade)
    requires t.eventId.index < MAX_EVENTS_PER_COMMAND
    ensures |PublicTradeJson(t)| <= PUBLIC_TRADE_BYTES
  {
    EventIdLength(t.eventId);
    QuotedLength(t.instrumentId);
    QuotedLength(t.executionPrice);
    QuotedLength(t.executionQuantity);
    hide Quoted, EventIdJson, PUBLIC_TRADE_OPEN, INSTRUMENT_ID, EXECUTION_PRICE, EXECUTION_QUANTITY, AGGRESSOR_SIDE,
         EVENT_ID_BYTES, SideName;
  }

  lemma PrivateTradeLength(e: PrivateEvent)
    requires e.PrivateTrade? && e.eventId.index < MAX_EVENTS_PER_COMMAND
    ensures |PrivateEventJson(e)| <= PRIVATE_TRADE_BYTES
  {
    EventIdLength(e.eventId);
    QuotedLength(e.instrumentId);
    QuotedLength(e.orderId);
    QuotedLength(e.executionPrice);
    QuotedLength(e.executionQuantity);
    QuotedLength(e.remainingQuantity);
    hide Quoted, EventIdJson, PRIVATE_TRADE_OPEN, INSTRUMENT_ID, ORDER_ID, SIDE, ROLE, EXECUTION_PRICE,
         EXECUTION_QUANTITY, REMAINING_QUANTITY, EVENT_ID_BYTES, SideName, RoleName;
  }

  lemma OrderRestedLength(e: Event)
    requires e.OrderRested? && e.eventId.index < MAX_EVENTS_PER_COMMAND
    ensures |PrivateEventJson(Forwarded(e))| <= ORDER_RESTED_BYTES
  {
    EventIdLength(e.eventId);
    QuotedLength(e.orderId);
    QuotedLength(e.clientId);
    QuotedLength(e.instrumentId);
    QuotedLength(e.price);
    QuotedLength(e.remainingQuantity);
    hide Quoted, EventIdJson, ORDER_RESTED_OPEN, ORDER_ID, CLIENT_ID, INSTRUMENT_ID, SIDE, PRICE, REMAINING_QUANTITY,
         EVENT_ID_BYTES, SideName;
  }

  lemma OrderCancelledLength(e: Event)
    requires e.OrderCancelled? && e.eventId.index < MAX_EVENTS_PER_COMMAND
    ensures |PrivateEventJson(Forwarded(e))| <= ORDER_CANCELLED_BYTES
  {
    EventIdLength(e.eventId);
    QuotedLength(e.orderId);
    QuotedLength(e.clientId);
    QuotedLength(e.instrumentId);
    QuotedLength(e.cancelledQuantity);
    hide Quoted, EventIdJson, ORDER_CANCELLED_OPEN, ORDER_ID, CLIENT_ID, INSTRUMENT_ID, CANCELLED_QUANTITY, REASON,
         EVENT_ID_BYTES, CancelReasonName;
  }

  lemma CommandRejectedLength(e: Event)
    requires e.CommandRejected? && e.eventId.index < MAX_EVENTS_PER_COMMAND
    ensures |PrivateEventJson(Forwarded(e))| <= COMMAND_REJECTED_BYTES
  {
    EventIdLength(e.eventId);
    QuotedLength(e.clientId);
    CommandIdLength(e.clientCommandId);
    QuotedLength(e.relevantOrderId);
    hide Quoted, EventIdJson, JsonString, COMMAND_REJECTED_OPEN, COMMAND_TYPE, CLIENT_ID, CLIENT_COMMAND_ID,
         RELEVANT_ORDER_ID, REASON, EVENT_ID_BYTES, MAX_ESCAPED_COMMAND_ID_BYTES, CommandTypeName, RejectionName;
  }

  // ----- Whole messages

  ghost predicate Serializable(events: seq<PrivateEvent>) {
    forall k | 0 <= k < |events| :: events[k].Forwarded? ==> !events[k].event.Trade?
  }

  ghost function PrivateEventsJson(events: seq<PrivateEvent>): string
    requires Serializable(events)
  {
    if events == [] then []
    else
      (if |events| == 1 then [] else PrivateEventsJson(events[..|events| - 1]) + [',']) +
      PrivateEventJson(events[|events| - 1])
  }

  function CorrelationJson(correlation: Option<Correlation>): string {
    if correlation.None? then []
    else
      CORRELATION_OPEN + Quoted(correlation.value.run) + CLIENT_ID + Quoted(correlation.value.clientId) +
      CLIENT_COMMAND_ID + JsonString(correlation.value.clientCommandId) + COMMAND_SEQUENCE +
      Quoted(correlation.value.sequence) + ['}']
  }

  ghost function PrivateMessage(run: u64, result: RecipientResult): string
    requires Serializable(result.privateResult)
  {
    PRIVATE_OPEN + Quoted(run) + RECIPIENT + Quoted(result.recipient) + CorrelationJson(result.correlation) +
    EVENTS_OPEN + PrivateEventsJson(result.privateResult) + CLOSE
  }

  function TradesJson(trades: seq<PublicTrade>): string {
    if trades == [] then []
    else (if |trades| == 1 then [] else TradesJson(trades[..|trades| - 1]) + [',']) + PublicTradeJson(trades[|trades| - 1])
  }

  function PublicMessage(run: u64, trades: seq<PublicTrade>): string {
    PUBLIC_OPEN + Quoted(run) + TRADES_OPEN + TradesJson(trades) + CLOSE
  }

  datatype JsonError = EmptyEvents | RunMismatch | CommandSequenceMismatch | CorrelationMismatch | RecipientMismatch

  datatype Serialized = Text(text: string) | Failed(error: JsonError)

  function IdOf(e: PrivateEvent): EventId {
    if e.PrivateTrade? then e.eventId else e.event.eventId
  }

  method SerializePublicTrades(run: u64, trades: seq<PublicTrade>) returns (serialized: Serialized)
    ensures serialized.Text? <==>
              && trades != []
              && (forall k | 0 <= k < |trades| ::
                    trades[k].eventId.run == run && trades[k].eventId.sequence == trades[0].eventId.sequence)
    ensures serialized.Text? ==> serialized.text == PublicMessage(run, trades)
  {
    hide Quoted, PublicTradeJson, PUBLIC_OPEN, TRADES_OPEN, CLOSE;
    if trades == [] {
      return Failed(EmptyEvents);
    }
    var front := PUBLIC_OPEN + Quoted(run) + TRADES_OPEN;
    var text: string := [];
    var i := 0;
    while i < |trades|
      invariant 0 <= i <= |trades| && text == TradesJson(trades[..i])
      invariant forall k | 0 <= k < i ::
                  trades[k].eventId.run == run && trades[k].eventId.sequence == trades[0].eventId.sequence
    {
      var trade := trades[i];
      if trade.eventId.run != run {
        return Failed(RunMismatch);
      }
      if trade.eventId.sequence != trades[0].eventId.sequence {
        return Failed(CommandSequenceMismatch);
      }
      assert trades[..i + 1][..i] == trades[..i];
      if i != 0 {
        text := text + [','];
      }
      text := text + PublicTradeJson(trade);
      i := i + 1;
    }
    assert trades[..i] == trades;
    serialized := Text(front + text + CLOSE);
  }

  /** An event belongs to the run, to the command, and, unless it is a trade, to the recipient. */
  predicate Belongs(e: PrivateEvent, run: u64, sequence: u64, recipient: u64)
    requires e.Forwarded? ==> !e.event.Trade?
  {
    IdOf(e).run == run && IdOf(e).sequence == sequence && (e.Forwarded? ==> e.event.clientId == recipient)
  }

  ghost predicate Consistent(run: u64, result: RecipientResult)
    requires Serializable(result.privateResult)
  {
    && result.privateResult != []
    && (var sequence := IdOf(result.privateResult[0]).sequence;
        && (forall k | 0 <= k < |result.privateResult| ::
              Belongs(result.privateResult[k], run, sequence, result.recipient))
        && (result.correlation.Some? ==>
            && result.correlation.value.run == run && result.correlation.value.sequence == sequence
            && result.correlation.value.clientId == result.recipient))
  }

  method SerializePrivateResult(run: u64, result: RecipientResult) returns (serialized: Serialized)
    requires Serializable(result.privateResult)
    ensures serialized.Text? <==> Consistent(run, result)
    ensures serialized.Text? ==> serialized.text == PrivateMessage(run, result)
  {
    hide Quoted, PrivateEventJson, CorrelationJson, PRIVATE_OPEN, RECIPIENT, EVENTS_OPEN, CLOSE;
    var events := result.privateResult;
    if events == [] {
      return Failed(EmptyEvents);
    }
    var front := PRIVATE_OPEN + Quoted(run) + RECIPIENT + Quoted(result.recipient) + CorrelationJson(result.correlation) +
                 EVENTS_OPEN;
    var sequence := IdOf(events[0]).sequence;
    var text: string := [];
    var i := 0;
    while i < |events|
      invariant 0 <= i <= |events| && text == PrivateEventsJson(events[..i])
      invariant forall k | 0 <= k < i :: Belongs(events[k], run, sequence, result.recipient)
    {
      var e := events[i];
      if i != 0 {
        text := text + [','];
      }
      if IdOf(e).run != run {
        return Failed(RunMismatch);
      }
      if IdOf(e).sequence != sequence {
        return Failed(CommandSequenceMismatch);
      }
      if e.Forwarded? && e.event.clientId != result.recipient {
        return Failed(RecipientMismatch);
      }
      assert events[..i + 1][..i] == events[..i];
      text := text + PrivateEventJson(e);
      i := i + 1;
    }
    assert events[..i] == events;
    if result.correlation.Some? {
      var correlation := result.correlation.value;
      if correlation.run != run || correlation.sequence != sequence {
        return Failed(CorrelationMismatch);
      }
      if correlation.clientId != result.recipient {
        return Failed(RecipientMismatch);
      }
    }
    serialized := Text(front + text + CLOSE);
  }

  // ----- The bound

  /** The bytes the events take with a separator after each. */
  ghost function EventBytes(events: seq<PrivateEvent>): nat
    requires Serializable(events)
  {
    if events == [] then 0
    else EventBytes(events[..|events| - 1]) + |PrivateEventJson(events[|events| - 1])| + 1
  }

  lemma {:induction false} EventsLength(events: seq<PrivateEvent>)
    requires Serializable(events) && events != []
    ensures |PrivateEventsJson(events)| + 1 == EventBytes(events)
    decreases |events|
  {
    hide PrivateEventJson;
    if |events| > 1 {
      EventsLength(events[..|events| - 1]);
    } else {
      assert events[..0] == [];
    }
  }

  lemma {:induction false} EventBytesConcat(a: seq<PrivateEvent>, b: seq<PrivateEvent>)
    requires Serializable(a) && Serializable(b)
    ensures Serializable(a + b) && EventBytes(a + b) == EventBytes(a) + EventBytes(b)
    decreases |b|
  {
    hide PrivateEventJson;
    if b == [] {
      assert a + b == a;
    } else {
      var front := b[..|b| - 1];
      assert (a + b)[..|a + b| - 1] == a + front;
      EventBytesConcat(a, front);
    }
  }

  /** One event of a command costs a client at most two private trades. */
  lemma OneEventBytes(e: Event, client: u64)
    requires e.eventId.index < MAX_EVENTS_PER_COMMAND
    ensures Serializable(EventView(e, client))
    ensures EventBytes(EventView(e, client)) <= TWO_PRIVATE_TRADES_BYTES + 1
  {
    hide PRIVATE_TRADE_BYTES, ORDER_RESTED_BYTES, ORDER_CANCELLED_BYTES, COMMAND_REJECTED_BYTES, PrivateEventJson,
         EventBytes;
    OtherEventsAreSmaller();
    var view := EventView(e, client);
    BytesOfFew(view);
    match e {
      case Trade(_, _, _, _, _, _, _, _, _, _, _) =>
        PrivateTradeLength(MakerView(e));
        PrivateTradeLength(TakerView(e));
      case OrderRested(_, _, _, _, _, _, _) => OrderRestedLength(e);
      case OrderCancelled(_, _, _, _, _, _) => OrderCancelledLength(e);
      case CommandRejected(_, _, _, _, _, _) => CommandRejectedLength(e);
    }
  }

  lemma BytesOfFew(view: seq<PrivateEvent>)
    requires Serializable(view) && |view| <= 2
    ensures EventBytes(view) ==
            (if |view| >= 1 then |PrivateEventJson(view[0])| + 1 else 0) +
            (if |view| == 2 then |PrivateEventJson(view[1])| + 1 else 0)
  {
    hide PrivateEventJson;
    if |view| == 2 {
      assert view[..1][..0] == [];
    } else if |view| == 1 {
      assert view[..0] == [];
    }
  }

  lemma {:induction false} ViewBytes(events: seq<Event>, client: u64)
    requires forall k | 0 <= k < |events| :: events[k].eventId.index < MAX_EVENTS_PER_COMMAND
    ensures Serializable(View(events, client))
    ensures EventBytes(View(events, client)) <= |events| * (TWO_PRIVATE_TRADES_BYTES + 1)
    decreases |events|
  {
    hide PrivateEventJson, EventView, TWO_PRIVATE_TRADES_BYTES, EventBytes;
    if events == [] {
      NoBytes();
    } else {
      var front, e := events[..|events| - 1], events[|events| - 1];
      ViewBytes(front, client);
      OneEventBytes(e, client);
      EventBytesConcat(View(front, client), EventView(e, client));
      assert |events| * (TWO_PRIVATE_TRADES_BYTES + 1) ==
             |front| * (TWO_PRIVATE_TRADES_BYTES + 1) + (TWO_PRIVATE_TRADES_BYTES + 1) by {
        SplitProduct(|front|, 1, TWO_PRIVATE_TRADES_BYTES + 1);
      }
    }
  }

  lemma NoBytes()
    ensures EventBytes([]) == 0
  {
  }

  lemma CorrelationLength(correlation: Option<Correlation>)
    ensures |CorrelationJson(correlation)| <=
            |CORRELATION_OPEN| + QUOTED_UINT64_BYTES + |CLIENT_ID| + QUOTED_UINT64_BYTES + |CLIENT_COMMAND_ID| +
            MAX_ESCAPED_COMMAND_ID_BYTES + |COMMAND_SEQUENCE| + QUOTED_UINT64_BYTES + 1
  {
    if correlation.Some? {
      QuotedLength(correlation.value.run);
      QuotedLength(correlation.value.clientId);
      CommandIdLength(correlation.value.clientCommandId);
      QuotedLength(correlation.value.sequence);
    }
    hide Quoted, JsonString, CORRELATION_OPEN, CLIENT_ID, CLIENT_COMMAND_ID, COMMAND_SEQUENCE,
         MAX_ESCAPED_COMMAND_ID_BYTES;
  }

  /** What the controller hands over for one command: event ids of one command in order, within the event limit. */
  ghost predicate FromController(batch: Batch) {
    1 <= |batch.events| <= MAX_EVENTS_PER_COMMAND && EventIdsFollow(batch)
  }

  lemma IndexesAreSmall(batch: Batch)
    requires FromController(batch)
    ensures forall k | 0 <= k < |batch.events| ::
              && batch.events[k].eventId.index < MAX_EVENTS_PER_COMMAND
              && batch.events[k].eventId.run == batch.correlation.run
              && batch.events[k].eventId.sequence == batch.correlation.sequence
  {
  }

  /** How long a private message is apart from its events. */
  lemma PrivateMessageLength(run: u64, result: RecipientResult)
    requires Serializable(result.privateResult)
    ensures |PrivateMessage(run, result)| <= PRIVATE_ENVELOPE_BYTES + |PrivateEventsJson(result.privateResult)|
  {
    hide Serializable, Quoted, CorrelationJson, PrivateEventsJson, QUOTED_UINT64_BYTES, PRIVATE_OPEN, RECIPIENT,
         EVENTS_OPEN, CLOSE, CORRELATION_OPEN, CLIENT_ID, CLIENT_COMMAND_ID, COMMAND_SEQUENCE,
         MAX_ESCAPED_COMMAND_ID_BYTES;
    QuotedLength(run);
    QuotedLength(result.recipient);
    CorrelationLength(result.correlation);
  }

  /** No private message of a controller result exceeds the minimum outbound capacity. */
  lemma PrivateMessageFits(batch: Batch, client: u64)
    requires FromController(batch) && Projection(batch, client).Some?
    ensures Serializable(Projection(batch, client).value.privateResult)
    ensures |PrivateMessage(batch.correlation.run, Projection(batch, client).value)| <= MIN_OUTBOUND_CAPACITY
  {
    hide *;
    var result := Projection(batch, client).value;
    ProjectedIs(batch, client);
    IndexesAreSmall(batch);
    ViewBytes(batch.events, client);
    EventsLength(result.privateResult);
    PrivateMessageLength(batch.correlation.run, result);
    EventLimit(batch);
    PrivateBound(|batch.events|, |PrivateEventsJson(result.privateResult)|);
  }

  lemma ProjectedIs(batch: Batch, client: u64)
    requires Projection(batch, client).Some?
    ensures Projection(batch, client).value.privateResult == View(batch.events, client) != []
  {
    hide View;
  }

  lemma EventLimit(batch: Batch)
    requires FromController(batch)
    ensures |batch.events| <= MAX_EVENTS_PER_COMMAND
  {
  }

  /** The capacity covers two private trades for every event of a command. */
  lemma PrivateBound(count: nat, bytes: nat)
    requires count <= MAX_EVENTS_PER_COMMAND && bytes + 1 <= count * (TWO_PRIVATE_TRADES_BYTES + 1)
    ensures PRIVATE_ENVELOPE_BYTES + bytes <= MIN_OUTBOUND_CAPACITY
  {
    hide PRIVATE_TRADE_BYTES, PRIVATE_ENVELOPE_BYTES, MAX_PUBLIC_MESSAGE_BYTES;
    MulMonotone(count, MAX_EVENTS_PER_COMMAND, TWO_PRIVATE_TRADES_BYTES + 1);
  }

  lemma {:induction false} TradesLength(trades: seq<PublicTrade>)
    requires trades != [] && forall k | 0 <= k < |trades| :: trades[k].eventId.index < MAX_EVENTS_PER_COMMAND
    ensures |TradesJson(trades)| + 1 <= |trades| * (PUBLIC_TRADE_BYTES + 1)
    decreases |trades|
  {
    hide PublicTradeJson, PUBLIC_TRADE_BYTES;
    PublicTradeLength(trades[|trades| - 1]);
    if |trades| > 1 {
      TradesLength(trades[..|trades| - 1]);
      SplitProduct(|trades| - 1, 1, PUBLIC_TRADE_BYTES + 1);
    }
  }

  /** Nor does any public message. */
  lemma PublicMessageFits(run: u64, trades: seq<PublicTrade>)
    requires 1 <= |trades| <= MAX_EVENTS_PER_COMMAND
    requires forall k | 0 <= k < |trades| :: trades[k].eventId.index < MAX_EVENTS_PER_COMMAND
    ensures |PublicMessage(run, trades)| <= MIN_OUTBOUND_CAPACITY
  {
    hide Quoted, TradesJson, PUBLIC_TRADE_BYTES, PUBLIC_OPEN, TRADES_OPEN, CLOSE, MAX_PRIVATE_MESSAGE_BYTES;
    TradesLength(trades);
    QuotedLength(run);
    MulMonotone(|trades|, MAX_EVENTS_PER_COMMAND, PUBLIC_TRADE_BYTES + 1);
  }

  // ----- What the controller hands over can always be serialized

  lemma {:induction false} ViewBelongs(events: seq<Event>, run: u64, sequence: u64, client: u64)
    requires forall k | 0 <= k < |events| :: events[k].eventId.run == run && events[k].eventId.sequence == sequence
    ensures Serializable(View(events, client))
    ensures forall k | 0 <= k < |View(events, client)| :: Belongs(View(events, client)[k], run, sequence, client)
    decreases |events|
  {
    if events != [] {
      var front, e := events[..|events| - 1], events[|events| - 1];
      ViewBelongs(front, run, sequence, client);
      assert forall k | 0 <= k < |EventView(e, client)| ::
          && (EventView(e, client)[k].Forwarded? ==> !EventView(e, client)[k].event.Trade?)
          && Belongs(EventView(e, client)[k], run, sequence, client);
    }
  }

  lemma ProjectionSerializes(batch: Batch, client: u64)
    requires FromController(batch) && Projection(batch, client).Some?
    ensures Serializable(Projection(batch, client).value.privateResult)
    ensures Consistent(batch.correlation.run, Projection(batch, client).value)
  {
    hide View;
    IndexesAreSmall(batch);
    ViewBelongs(batch.events, batch.correlation.run, batch.correlation.sequence, client);
  }
}
