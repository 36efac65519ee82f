/** Encoding and decoding of the two command records, and the proof that they are inverse to each other. */
module CommandCodec {
  import opened LittleEndian
  import opened Crc32c
  import opened Domain
  import opened JournalFrame

  const BEHAVIORAL_RULES_VERSION: u32 := 1

  datatype Command =
    | NewOrder(run: u64, sequence: u64, rules: u32, configuration: u32, clientId: u64, instrumentId: u64,
               commandId: ClientCommandId, side: Side, tif: TimeInForce, price: u64, quantity: u64)
    | Cancel(run: u64, sequence: u64, rules: u32, configuration: u32, clientId: u64, instrumentId: u64,
             commandId: ClientCommandId, targetOrderId: u64)

  function RecordType(c: Command): nat {
    if c.NewOrder? then NEW_ORDER_RECORD_TYPE else CANCEL_RECORD_TYPE
  }

  function ValidateCommon(run: nat, sequence: nat, rules: nat, configuration: nat, clientId: nat, instrumentId: nat)
    : Option<CommandError>
  {
    if run == 0 then Some(ZeroRunId)
    else if sequence == 0 then Some(ZeroSequence)
    else if rules != BEHAVIORAL_RULES_VERSION then Some(UnsupportedRulesVersion)
    else if configuration == 0 then Some(ZeroConfigurationVersion)
    else if clientId == 0 then Some(ZeroClientId)
    else if instrumentId == 0 then Some(ZeroInstrumentId)
    else None
  }

  /** Why a command cannot be encoded, if it cannot. */
  function Refusal(c: Command): Option<CommandError> {
    var common := ValidateCommon(c.run, c.sequence, c.rules, c.configuration, c.clientId, c.instrumentId);
    if common.Some? then common
    else match c
      case NewOrder(_, _, _, _, _, _, _, _, tif, price, quantity) =>
        if tif != GTC && tif != IOC then Some(UnsupportedTif)
        else if price == 0 then Some(ZeroPrice)
        else if quantity == 0 then Some(ZeroQuantity)
        else None
      case Cancel(_, _, _, _, _, _, _, targetOrderId) =>
        if targetOrderId == 0 then Some(ZeroTargetOrderId) else None
  }

  predicate Encodable(c: Command) {
    Refusal(c).None?
  }

  function SideCode(side: Side): byte {
    if side.Buy? then 1 else 2
  }

  function TifCode(tif: TimeInForce): byte {
    if tif == GTC then 1 else 2
  }

  function Tail(c: Command): seq<byte> {
    match c
    case NewOrder(_, _, _, _, _, _, _, side, tif, price, quantity) =>
      [SideCode(side), TifCode(tif)] + Encode(8, price) + Encode(8, quantity)
    case Cancel(_, _, _, _, _, _, _, targetOrderId) =>
      Encode(8, targetOrderId)
  }

  function CommonPart(c: Command): (part: seq<byte>)
    ensures |part| == 25 + |c.commandId|
  {
    Encode(4, c.rules) + Encode(4, c.configuration) + Encode(8, c.clientId) + Encode(8, c.instrumentId) +
    [|c.commandId|] + c.commandId
  }

  function Payload(c: Command): seq<byte> {
    CommonPart(c) + Tail(c)
  }

  /** The record of a command. */
  function FrameOf(c: Command): seq<byte> {
    Frame(RecordType(c), c.run, c.sequence, Payload(c))
  }

  function FixedPayload(recordType: nat): nat {
    if recordType == NEW_ORDER_RECORD_TYPE then NEW_ORDER_FIXED_PAYLOAD else CANCEL_FIXED_PAYLOAD
  }

  lemma PayloadSize(c: Command)
    ensures |Payload(c)| == FixedPayload(RecordType(c)) + |c.commandId|
    ensures |FrameOf(c)| == ENVELOPE_SIZE + |Payload(c)| <= COMMAND_MAX_FRAME_SIZE
    ensures MinimumPayload(RecordType(c)) <= |Payload(c)| <= MaximumPayload(RecordType(c))
  {
  }

  // ----- Decoding

  function DecodeTail(envelope: Envelope, common: Command, tail: seq<byte>): Result<Command, CommandError>
    requires common.Cancel?
    requires |tail| == if envelope.recordType == NEW_ORDER_RECORD_TYPE then 18 else 8
  {
    if envelope.recordType == NEW_ORDER_RECORD_TYPE then
      if tail[0] != 1 && tail[0] != 2 then Err(UnsupportedSide)
      else if tail[1] != 1 && tail[1] != 2 then Err(UnsupportedTif)
      else
        FieldFitsU64(tail, 2);
        FieldFitsU64(tail, 10);
        var price, quantity := Field(tail, 2, 8), Field(tail, 10, 8);
        if price == 0 then Err(ZeroPrice)
        else if quantity == 0 then Err(ZeroQuantity)
        else
          Ok(NewOrder(common.run, common.sequence, common.rules, common.configuration, common.clientId,
                      common.instrumentId, common.commandId, if tail[0] == 1 then Buy else Sell,
                      if tail[1] == 1 then GTC else IOC, price, quantity))
    else
      FieldFitsU64(tail, 0);
      var target := Field(tail, 0, 8);
      if target == 0 then Err(ZeroTargetOrderId) else Ok(common.(targetOrderId := target))
  }

  /** Decodes a complete frame of the given record type. */
  function DecodeCommand(input: seq<byte>, recordType: nat): Result<Command, CommandError>
    requires recordType == NEW_ORDER_RECORD_TYPE || recordType == CANCEL_RECORD_TYPE
  {
    var checked := ValidateCommandEnvelope(input, recordType, true);
    if checked.Err? then Err(checked.error)
    else
      var envelope := checked.value;
      var payload := input[ENVELOPE_SIZE..];
      if envelope.payloadLength < FixedPayload(recordType) then Err(InvalidPayloadLength)
      else
        var length := payload[24];
        if envelope.payloadLength != FixedPayload(recordType) + length then Err(InvalidPayloadLength)
        else
          var text := payload[25..25 + length];
          FieldFitsU32(payload, 0);
          FieldFitsU32(payload, 4);
          FieldFitsU64(payload, 8);
          FieldFitsU64(payload, 16);
          var rules, configuration := Field(payload, 0, 4), Field(payload, 4, 4);
          var clientId, instrumentId := Field(payload, 8, 8), Field(payload, 16, 8);
          var common := ValidateCommon(envelope.run, envelope.sequence, rules, configuration, clientId, instrumentId);
          if common.Some? then Err(common.value)
          else
            // The identifier is checked last, when the decoded record is built.
            var stand: ClientCommandId := if IsClientCommandId(text) then text else [120];
            var decoded := DecodeTail(envelope, Cancel(envelope.run, envelope.sequence, rules, configuration, clientId,
                                                       instrumentId, stand, 0), payload[25 + length..]);
            if decoded.Err? then decoded
            else if !IsClientCommandId(text) then Err(InvalidClientCommandId)
            else decoded
  }

  lemma FieldFitsU32(bytes: seq<byte>, offset: nat)
    requires offset + 4 <= |bytes|
    ensures Field(bytes, offset, 4) < U32_LIMIT
  {
    Limits();
    DecodeBound(bytes[offset..offset + 4]);
  }

  // ----- The payload and its parts

  lemma PayloadSlices(a: seq<byte>, b: seq<byte>, c: seq<byte>, d: seq<byte>, length: byte, id: seq<byte>, tail: seq<byte>)
    requires |a| == 4 && |b| == 4 && |c| == 8 && |d| == 8
    ensures var s := a + b + c + d + [length] + id + tail;
            && s[0..4] == a && s[4..8] == b && s[8..16] == c && s[16..24] == d && s[24] == length
            && s[25..25 + |id|] == id && s[25 + |id|..] == tail
  {
    var s := a + b + c + d + [length] + id + tail;
    var s5 := a + b + c + d + [length];
    assert s[..25] == s5;
    var s4 := a + b + c + d;
    assert s5[..24] == s4;
    var s3 := a + b + c;
    assert s4[..16] == s3 && s4[16..] == d;
    assert s3[..8] == a + b && s3[8..] == c;
  }

  lemma PayloadPieces(s: seq<byte>, length: nat)
    requires 25 + length <= |s|
    ensures s == s[0..4] + s[4..8] + s[8..16] + s[16..24] + [s[24]] + s[25..25 + length] + s[25 + length..]
  {
    assert s[..8] == s[0..4] + s[4..8];
    assert s[..16] == s[..8] + s[8..16];
    assert s[..24] == s[..16] + s[16..24];
    assert s[..25] == s[..24] + [s[24]];
    assert s[..25 + length] == s[..25] + s[25..25 + length];
  }

  lemma PayloadFields(c: Command)
    ensures var payload := Payload(c);
            && |payload| >= 25 + |c.commandId|
            && Field(payload, 0, 4) == c.rules
            && Field(payload, 4, 4) == c.configuration
            && Field(payload, 8, 8) == c.clientId
            && Field(payload, 16, 8) == c.instrumentId
            && payload[24] == |c.commandId|
            && payload[25..25 + |c.commandId|] == c.commandId
            && payload[25 + |c.commandId|..] == Tail(c)
  {
    hide Encode, Decode, Tail;
    PayloadSlices(Encode(4, c.rules), Encode(4, c.configuration), Encode(8, c.clientId), Encode(8, c.instrumentId),
                  |c.commandId|, c.commandId, Tail(c));
    Limits();
    DecodeEncode(4, c.rules);
    DecodeEncode(4, c.configuration);
    DecodeEncode(8, c.clientId);
    DecodeEncode(8, c.instrumentId);
  }

  lemma TailRoundTrip(envelope: Envelope, c: Command, common: Command)
    requires Encodable(c) && envelope.recordType == RecordType(c)
    requires common == Cancel(c.run, c.sequence, c.rules, c.configuration, c.clientId, c.instrumentId, c.commandId, 0)
    ensures |Tail(c)| == if envelope.recordType == NEW_ORDER_RECORD_TYPE then 18 else 8
    ensures DecodeTail(envelope, common, Tail(c)) == Ok(c)
  {
    hide Encode, Decode;
    Limits();
    var tail := Tail(c);
    if c.NewOrder? {
      assert tail[2..10] == Encode(8, c.price) && tail[10..18] == Encode(8, c.quantity);
      DecodeEncode(8, c.price);
      DecodeEncode(8, c.quantity);
    } else {
      assert tail[0..8] == tail;
      DecodeEncode(8, c.targetOrderId);
    }
  }

  /** Decoding a tail loses nothing: encoding the result gives the tail back. */
  lemma TailCanonical(envelope: Envelope, common: Command, tail: seq<byte>)
    requires common.Cancel? && |tail| == if envelope.recordType == NEW_ORDER_RECORD_TYPE then 18 else 8
    requires DecodeTail(envelope, common, tail).Ok?
    ensures Tail(DecodeTail(envelope, common, tail).value) == tail
  {
    hide Encode, Decode;
    if envelope.recordType == NEW_ORDER_RECORD_TYPE {
      EncodeDecode(tail[2..10]);
      EncodeDecode(tail[10..18]);
      assert tail == [tail[0], tail[1]] + tail[2..10] + tail[10..18];
    } else {
      assert tail[0..8] == tail;
      EncodeDecode(tail[0..8]);
    }
  }

  // ----- The codec is a bijection between encodable commands and valid frames

  lemma EnvelopeOfFrame(c: Command)
    requires Encodable(c)
    ensures ValidateCommandEnvelope(FrameOf(c), RecordType(c), true) ==
            Ok(Envelope(RecordType(c), |FrameOf(c)|, c.run, c.sequence, |Payload(c)|))
  {
    PayloadSize(c);
    FrameFields(RecordType(c), c.run, c.sequence, Payload(c));
    hide Payload, Frame, FrameChecksum;
  }

  /** Decoding what was encoded gives the command back. */
  lemma DecodeOfEncode(c: Command)
    requires Encodable(c)
    ensures DecodeCommand(FrameOf(c), RecordType(c)) == Ok(c)
  {
    EnvelopeOfFrame(c);
    PayloadSize(c);
    FrameFields(RecordType(c), c.run, c.sequence, Payload(c));
    hide Frame, ValidateCommandEnvelope;
    PayloadFields(c);
    hide Payload;
    var common := Cancel(c.run, c.sequence, c.rules, c.configuration, c.clientId, c.instrumentId, c.commandId, 0);
    TailRoundTrip(Envelope(RecordType(c), |FrameOf(c)|, c.run, c.sequence, |Payload(c)|), c, common);
    hide Tail, DecodeTail, Field;
  }

  /** Encoding what was decoded gives the bytes back: each command has exactly one record. */
  lemma EncodeOfDecode(input: seq<byte>, recordType: nat)
    requires recordType == NEW_ORDER_RECORD_TYPE || recordType == CANCEL_RECORD_TYPE
    requires DecodeCommand(input, recordType).Ok?
    ensures var c := DecodeCommand(input, recordType).value;
            Encodable(c) && RecordType(c) == recordType && FrameOf(c) == input
  {
    var c := DecodeCommand(input, recordType).value;
    var envelope := ValidateCommandEnvelope(input, recordType, true).value;
    var payload := input[ENVELOPE_SIZE..];
    var length := payload[24];
    DecodedFields(input, recordType);
    hide DecodeCommand;
    PayloadPieces(payload, length);
    hide Encode, Decode, Tail;
    EncodeDecode(payload[0..4]);
    EncodeDecode(payload[4..8]);
    EncodeDecode(payload[8..16]);
    EncodeDecode(payload[16..24]);
    assert Payload(c) == payload;
    FrameFromFields(input);
  }

  lemma DecodedFields(input: seq<byte>, recordType: nat)
    requires recordType == NEW_ORDER_RECORD_TYPE || recordType == CANCEL_RECORD_TYPE
    requires DecodeCommand(input, recordType).Ok?
    ensures ENVELOPE_SIZE + 25 <= |input| <= COMMAND_MAX_FRAME_SIZE
    ensures var c := DecodeCommand(input, recordType).value;
            var payload := input[ENVELOPE_SIZE..];
            var length := payload[24];
            && Encodable(c) && RecordType(c) == recordType
            && input[..4] == MAGIC && Field(input, 4, 2) == FORMAT_VERSION && Field(input, 6, 2) == recordType
            && Field(input, 8, 4) == |input| && Field(input, 28, 4) == |input| - ENVELOPE_SIZE
            && Field(input, 32, 4) == FrameChecksum(input)
            && c.run == Field(input, 12, 8) && c.sequence == Field(input, 20, 8)
            && 25 + length <= |payload|
            && c.rules == Field(payload, 0, 4) && c.configuration == Field(payload, 4, 4)
            && c.clientId == Field(payload, 8, 8) && c.instrumentId == Field(payload, 16, 8)
            && length == |c.commandId| && c.commandId == payload[25..25 + length]
            && Tail(c) == payload[25 + length..]
  {
    hide Encode, Decode, Field, Tail, FrameChecksum;
    var envelope := ValidateCommandEnvelope(input, recordType, true).value;
    var payload := input[ENVELOPE_SIZE..];
    var text := payload[25..25 + payload[24]];
    FieldFitsU32(payload, 0);
    FieldFitsU32(payload, 4);
    FieldFitsU64(payload, 8);
    FieldFitsU64(payload, 16);
    TailCanonical(envelope, Cancel(envelope.run, envelope.sequence, Field(payload, 0, 4), Field(payload, 4, 4),
                                   Field(payload, 8, 8), Field(payload, 16, 8), text, 0),
                  payload[25 + payload[24]..]);
  }
}
