/** The values that cross component boundaries: identifiers, messages, business events, result batches. */
module Domain {
  import opened LittleEndian

  datatype Option<+T> = None | Some(value: T)

  type u32 = x: int | 0 <= x < U32_LIMIT
  type u64 = x: int | 0 <= x < U64_LIMIT

  datatype Side = Buy | Sell

  datatype OrderType = BUY | SELL | CANCEL | CANCELREJ

  datatype TimeInForce = DAY | GTC | IOC | FOK | GTX | ATC | GTD

  const MAX_CLIENT_COMMAND_ID_LENGTH: nat := 64

  predicate IsClientCommandId(text: seq<byte>) {
    1 <= |text| <= MAX_CLIENT_COMMAND_ID_LENGTH && forall k :: 0 <= k < |text| ==> text[k] <= 0x7f
  }

  type ClientCommandId = text: seq<byte> | IsClientCommandId(text) witness [120]

  /** The message a submission carries through sequencing into matching. */
  datatype Message = Message(
    orderId: u64,
    targetOrderId: Option<u64>,
    sequence: u64,
    clientId: u64,
    clientCommandId: Option<ClientCommandId>,
    instrumentId: u64,
    configurationVersion: u64,
    price: u64,
    quantity: u64,
    kind: OrderType,
    tif: TimeInForce)

  predicate IsNewOrder(m: Message) {
    m.kind.BUY? || m.kind.SELL?
  }

  datatype CommandType = NewOrderCommand | CancelCommand

  datatype RejectionReason = OrderNotActive | NotOwner | BookCapacityExceeded

  datatype CancelReason = ClientRequested | IocRemainder

  datatype EventId = EventId(sequence: u64, index: nat, run: u64)

  datatype Event =
    | Trade(eventId: EventId, instrumentId: u64, makerOrderId: u64, makerClientId: u64,
            takerOrderId: u64, takerClientId: u64, takerSide: Side, executionPrice: u64, executionQuantity: u64,
            makerRemaining: u64, takerRemaining: u64)
    | OrderRested(eventId: EventId, orderId: u64, clientId: u64, instrumentId: u64, side: Side, price: u64,
                  remainingQuantity: u64)
    | OrderCancelled(eventId: EventId, orderId: u64, clientId: u64, instrumentId: u64, cancelledQuantity: u64,
                     reason: CancelReason)
    | CommandRejected(eventId: EventId, commandType: CommandType, clientId: u64, clientCommandId: ClientCommandId,
                      relevantOrderId: u64, rejection: RejectionReason)

  datatype Correlation = Correlation(clientId: u64, clientCommandId: ClientCommandId, sequence: u64, run: u64)

  datatype ProcessingResult = Applied | CapacityExceeded

  datatype Batch = Batch(correlation: Correlation, result: ProcessingResult, events: seq<Event>)

  /** The conditions under which the matching engine throws because of what its caller handed it. */
  datatype LogicError =
    | MissingCorrelation
    | UnsupportedTimeInForce
    | DuplicateOrderId
    | UnknownConfiguration
    | IncompleteCancel
    | UnexpectedOrderId
    | WrongInstrument
    | UnsupportedType

  datatype InstrumentConfiguration = InstrumentConfiguration(
    instrumentId: u64,
    configurationVersion: u64,
    priceScale: u32,
    tickSizeMantissa: u64,
    lotSize: u64,
    maxPrice: u64,
    maxOrderQuantity: u64,
    maxPriceLevelAggregate: u64)

  const SPY_V1: InstrumentConfiguration :=
    InstrumentConfiguration(1, 1, 4, 1, 1, 10_000_000_000, 100_000_000, 1_000_000_000)

  const MAX_EVENTS_PER_COMMAND: nat := 4096

  function FindByIdentity(instrumentId: u64, configurationVersion: u64): Option<InstrumentConfiguration> {
    if instrumentId == SPY_V1.instrumentId && configurationVersion == SPY_V1.configurationVersion
    then Some(SPY_V1)
    else None
  }
}
