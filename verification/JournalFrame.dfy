/**
 * The envelope every journal record shares: 36 bytes of identification, lengths and checksum in front of a payload.
 * `Frame` is the record as a value; `ValidateCommandEnvelope` is the check the reader and the decoders make.
 */
module JournalFrame {
  import opened LittleEndian
  import opened Crc32c
  import opened Domain

  const MAGIC: seq<byte> := [70, 88, 74, 82]
  const FORMAT_VERSION: nat := 1
  const ENVELOPE_SIZE: nat := 36
  const CHECKSUM_OFFSET: nat := 32
  const RUN_HEADER_RECORD_TYPE: nat := 1
  const NEW_ORDER_RECORD_TYPE: nat := 2
  const CANCEL_RECORD_TYPE: nat := 3
  const COMMAND_MAX_FRAME_SIZE: nat := 256
  const RUN_HEADER_MAX_FRAME_SIZE: nat := 65_536
  const NEW_ORDER_FIXED_PAYLOAD: nat := 43
  const CANCEL_FIXED_PAYLOAD: nat := 33

  /** The little-endian number stored at an offset. */
  function Field(bytes: seq<byte>, offset: nat, width: nat): nat
    requires offset + width <= |bytes|
  {
    Decode(bytes[offset..offset + width])
  }

  /** The bytes in front of the checksum. */
  function Head(recordType: nat, run: u64, sequence: u64, payloadLength: nat): (head: seq<byte>)
    ensures |head| == CHECKSUM_OFFSET
  {
    MAGIC + Encode(2, FORMAT_VERSION) + Encode(2, recordType) + Encode(4, ENVELOPE_SIZE + payloadLength) +
    Encode(8, run) + Encode(8, sequence) + Encode(4, payloadLength)
  }

  function Frame(recordType: nat, run: u64, sequence: u64, payload: seq<byte>): (frame: seq<byte>)
    ensures |frame| == ENVELOPE_SIZE + |payload|
  {
    var head := Head(recordType, run, sequence, |payload|);
    head + Encode(4, Checksum(head + payload)) + payload
  }

  /** The checksum of a frame covers everything but the checksum field. */
  function FrameChecksum(frame: seq<byte>): nat
    requires |frame| >= ENVELOPE_SIZE
  {
    Checksum(frame[..CHECKSUM_OFFSET] + frame[ENVELOPE_SIZE..])
  }

  lemma HeadFields(recordType: nat, run: u64, sequence: u64, payloadLength: nat)
    requires recordType < 0x1_0000 && ENVELOPE_SIZE + payloadLength < U32_LIMIT
    ensures var head := Head(recordType, run, sequence, payloadLength);
            && head[..4] == MAGIC
            && Field(head, 4, 2) == FORMAT_VERSION
            && Field(head, 6, 2) == recordType
            && Field(head, 8, 4) == ENVELOPE_SIZE + payloadLength
            && Field(head, 12, 8) == run
            && Field(head, 20, 8) == sequence
            && Field(head, 28, 4) == payloadLength
  {
    hide Encode, Decode;
    Slices(MAGIC, Encode(2, FORMAT_VERSION), Encode(2, recordType), Encode(4, ENVELOPE_SIZE + payloadLength),
           Encode(8, run), Encode(8, sequence), Encode(4, payloadLength));
    Limits();
    DecodeEncode(2, FORMAT_VERSION);
    DecodeEncode(2, recordType);
    DecodeEncode(4, ENVELOPE_SIZE + payloadLength);
    DecodeEncode(8, run);
    DecodeEncode(8, sequence);
    DecodeEncode(4, payloadLength);
  }

  /** Where seven consecutive fields of the envelope start and end. */
  lemma Slices(a: seq<byte>, b: seq<byte>, c: seq<byte>, d: seq<byte>, e: seq<byte>, f: seq<byte>, g: seq<byte>)
    requires |a| == 4 && |b| == 2 && |c| == 2 && |d| == 4 && |e| == 8 && |f| == 8 && |g| == 4
    ensures var s := a + b + c + d + e + f + g;
            && s[..4] == a && s[4..6] == b && s[6..8] == c && s[8..12] == d && s[12..20] == e && s[20..28] == f
            && s[28..32] == g
  {
    var s := a + b + c + d + e + f + g;
    assert s[28..] == g;
    var s6 := a + b + c + d + e + f;
    assert s[..28] == s6 && s6[20..] == f;
    var s5 := a + b + c + d + e;
    assert s6[..20] == s5 && s5[12..] == e;
    var s4 := a + b + c + d;
    assert s5[..12] == s4 && s4[8..] == d;
    assert s4[..8] == a + b + c;
  }

  lemma Pieces(s: seq<byte>)
    requires |s| == CHECKSUM_OFFSET
    ensures s == s[..4] + s[4..6] + s[6..8] + s[8..12] + s[12..20] + s[20..28] + s[28..32]
  {
    assert s[..6] == s[..4] + s[4..6];
    assert s[..8] == s[..6] + s[6..8];
    assert s[..12] == s[..8] + s[8..12];
    assert s[..20] == s[..12] + s[12..20];
    assert s[..28] == s[..20] + s[20..28];
  }

  /** Reading the fields of a frame gives back what it was built from. */
  lemma FrameFields(recordType: nat, run: u64, sequence: u64, payload: seq<byte>)
    requires recordType < 0x1_0000 && ENVELOPE_SIZE + |payload| < U32_LIMIT
    ensures var frame := Frame(recordType, run, sequence, payload);
            && frame[..4] == MAGIC
            && Field(frame, 4, 2) == FORMAT_VERSION
            && Field(frame, 6, 2) == recordType
            && Field(frame, 8, 4) == |frame|
            && Field(frame, 12, 8) == run
            && Field(frame, 20, 8) == sequence
            && Field(frame, 28, 4) == |payload|
            && Field(frame, 32, 4) == FrameChecksum(frame)
            && frame[ENVELOPE_SIZE..] == payload
  {
    var frame := Frame(recordType, run, sequence, payload);
    var head := Head(recordType, run, sequence, |payload|);
    HeadFields(recordType, run, sequence, |payload|);
    hide Head, Checksum, Encode, Decode;
    assert frame[..CHECKSUM_OFFSET] == head && frame[ENVELOPE_SIZE..] == payload;
    FieldsOfPrefix(frame, head);
    assert frame[32..36] == Encode(4, Checksum(head + payload));
    Limits();
    DecodeEncode(4, Checksum(head + payload));
  }

  lemma FieldsOfPrefix(bytes: seq<byte>, head: seq<byte>)
    requires |head| == CHECKSUM_OFFSET <= |bytes| && bytes[..CHECKSUM_OFFSET] == head
    ensures bytes[..4] == head[..4]
    ensures forall offset, width | 0 <= offset && 0 <= width && offset + width <= CHECKSUM_OFFSET ::
              Field(bytes, offset, width) == Field(head, offset, width)
  {
    forall offset, width | 0 <= offset && 0 <= width && offset + width <= CHECKSUM_OFFSET
      ensures Field(bytes, offset, width) == Field(head, offset, width)
    {
      assert bytes[offset..offset + width] == head[offset..offset + width];
    }
  }

  /** A frame is determined by its fields: nothing else can be hidden in the bytes. */
  lemma FrameFromFields(frame: seq<byte>)
    requires ENVELOPE_SIZE <= |frame| < U32_LIMIT
    requires frame[..4] == MAGIC && Field(frame, 4, 2) == FORMAT_VERSION
    requires Field(frame, 8, 4) == |frame| && Field(frame, 28, 4) == |frame| - ENVELOPE_SIZE
    requires Field(frame, 32, 4) == FrameChecksum(frame)
    ensures Field(frame, 6, 2) < 0x1_0000 && Field(frame, 12, 8) < U64_LIMIT && Field(frame, 20, 8) < U64_LIMIT
    ensures frame == Frame(Field(frame, 6, 2), Field(frame, 12, 8), Field(frame, 20, 8), frame[ENVELOPE_SIZE..])
  {
    hide Encode, Decode, Checksum;
    Limits();
    DecodeBound(frame[6..8]);
    DecodeBound(frame[12..20]);
    DecodeBound(frame[20..28]);
    var head := frame[..32];
    FieldsOfPrefix(frame, head);
    Pieces(head);
    EncodeDecode(head[4..6]);
    EncodeDecode(head[6..8]);
    EncodeDecode(head[8..12]);
    EncodeDecode(head[12..20]);
    EncodeDecode(head[20..28]);
    EncodeDecode(head[28..32]);
    assert head == Head(Field(frame, 6, 2), Field(frame, 12, 8), Field(frame, 20, 8), |frame| - ENVELOPE_SIZE);
    hide Head;
    EncodeDecode(frame[32..36]);
    assert frame == head + frame[32..36] + frame[ENVELOPE_SIZE..];
  }

  // ----- Envelope validation

  datatype CommandError =
    | TruncatedInput | FrameTooLarge | TrailingBytes | InvalidMagic | UnsupportedFormatVersion | UnsupportedRecordType
    | InvalidTotalLength | ZeroRunId | ZeroSequence | InvalidPayloadLength | ChecksumMismatch
    | UnsupportedRulesVersion | ZeroConfigurationVersion | ZeroClientId | ZeroInstrumentId | InvalidClientCommandId
    | UnsupportedSide | UnsupportedTif | ZeroPrice | ZeroQuantity | ZeroTargetOrderId

  datatype Result<+T, +E> = Ok(value: T) | Err(error: E)

  datatype Envelope = Envelope(recordType: nat, totalLength: nat, run: u64, sequence: u64, payloadLength: nat)

  function MinimumPayload(recordType: nat): nat {
    (if recordType == NEW_ORDER_RECORD_TYPE then NEW_ORDER_FIXED_PAYLOAD else CANCEL_FIXED_PAYLOAD) + 1
  }

  function MaximumPayload(recordType: nat): nat {
    (if recordType == NEW_ORDER_RECORD_TYPE then NEW_ORDER_FIXED_PAYLOAD else CANCEL_FIXED_PAYLOAD) +
    MAX_CLIENT_COMMAND_ID_LENGTH
  }

  /** `expected` 0 accepts either command type; an incomplete frame is checked as far as its envelope goes. */
  function ValidateCommandEnvelope(input: seq<byte>, expected: nat, complete: bool): Result<Envelope, CommandError>
  {
    if |input| < ENVELOPE_SIZE then Err(TruncatedInput)
    else if |input| > COMMAND_MAX_FRAME_SIZE then Err(FrameTooLarge)
    else if input[..4] != MAGIC then Err(InvalidMagic)
    else if Field(input, 4, 2) != FORMAT_VERSION then Err(UnsupportedFormatVersion)
    else
      var recordType := Field(input, 6, 2);
      if (recordType != NEW_ORDER_RECORD_TYPE && recordType != CANCEL_RECORD_TYPE) ||
         (expected != 0 && recordType != expected) then Err(UnsupportedRecordType)
      else
        var totalLength := Field(input, 8, 4);
        if totalLength < ENVELOPE_SIZE then Err(InvalidTotalLength)
        else if totalLength > COMMAND_MAX_FRAME_SIZE then Err(FrameTooLarge)
        else if complete && |input| < totalLength then Err(TruncatedInput)
        else if complete && |input| > totalLength then Err(TrailingBytes)
        else
          var run, sequence := Field(input, 12, 8), Field(input, 20, 8);
          if run == 0 then Err(ZeroRunId)
          else if sequence == 0 then Err(ZeroSequence)
          else
            var payloadLength := Field(input, 28, 4);
            if ENVELOPE_SIZE + payloadLength != totalLength then Err(InvalidPayloadLength)
            else if complete && Field(input, 32, 4) != FrameChecksum(input) then Err(ChecksumMismatch)
            else if !complete && !(MinimumPayload(recordType) <= payloadLength <= MaximumPayload(recordType)) then
              Err(InvalidPayloadLength)
            else
              FieldFitsU64(input, 12);
              FieldFitsU64(input, 20);
              Ok(Envelope(recordType, totalLength, run, sequence, payloadLength))
  }

  lemma FieldFitsU64(bytes: seq<byte>, offset: nat)
    requires offset + 8 <= |bytes|
    ensures Field(bytes, offset, 8) < U64_LIMIT
  {
    Limits();
    DecodeBound(bytes[offset..offset + 8]);
  }
}
