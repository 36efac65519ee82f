/** The run header record: limits of the run and the instruments it trades, in strictly increasing order. */
module HeaderCodec {
  import opened LittleEndian
  import opened Crc32c
  import opened Domain
  import opened JournalFrame
  import opened CommandCodec
  import opened CommandEncoder

  const FIXED_PAYLOAD: nat := 32
  const ENTRY_SIZE: nat := 12
  const MAX_INSTRUMENTS: nat := (RUN_HEADER_MAX_FRAME_SIZE - (ENVELOPE_SIZE + FIXED_PAYLOAD)) / ENTRY_SIZE

  datatype Instrument = Instrument(id: u64, configuration: u32)

  datatype Header = Header(
    run: u64, rules: u32, maxEvents: u32, maxCommands: u64, maxBytes: u64, instruments: seq<Instrument>)

  datatype HeaderError =
    | HeaderTruncated | HeaderTooLarge | HeaderTrailingBytes | HeaderInvalidMagic | HeaderUnsupportedVersion
    | HeaderUnsupportedType | HeaderInvalidTotalLength | HeaderZeroRunId | HeaderNonzeroSequence
    | HeaderInvalidPayloadLength | HeaderChecksumMismatch | HeaderUnsupportedRules | HeaderUnsupportedMaxEvents
    | HeaderZeroMaxCommands | HeaderMaxBytesTooSmall | HeaderZeroInstrument | HeaderZeroConfiguration
    | HeaderNotIncreasing | HeaderUnsupportedGenerator

  function FrameSize(h: Header): nat {
    ENVELOPE_SIZE + FIXED_PAYLOAD + ENTRY_SIZE * |h.instruments|
  }

  /** First problem in the instrument list, given the largest identifier seen so far. */
  function InstrumentRefusal(instruments: seq<Instrument>, previous: nat): Option<HeaderError> {
    if instruments == [] then None
    else if instruments[0].id == 0 then Some(HeaderZeroInstrument)
    else if instruments[0].configuration == 0 then Some(HeaderZeroConfiguration)
    else if instruments[0].id <= previous then Some(HeaderNotIncreasing)
    else InstrumentRefusal(instruments[1..], instruments[0].id)
  }

  function HeaderRefusal(h: Header): Option<HeaderError> {
    if h.run == 0 then Some(HeaderZeroRunId)
    else if h.rules != BEHAVIORAL_RULES_VERSION then Some(HeaderUnsupportedRules)
    else if h.maxEvents != MAX_EVENTS_PER_COMMAND then Some(HeaderUnsupportedMaxEvents)
    else if h.maxCommands == 0 then Some(HeaderZeroMaxCommands)
    else if InstrumentRefusal(h.instruments, 0).Some? then InstrumentRefusal(h.instruments, 0)
    else if |h.instruments| > MAX_INSTRUMENTS then Some(HeaderTooLarge)
    else if h.maxBytes < FrameSize(h) then Some(HeaderMaxBytesTooSmall)
    else None
  }

  /** What a header promises, said directly. */
  ghost predicate WellFormed(h: Header) {
    && h.run > 0 && h.rules == 1 && h.maxEvents == 4096 && h.maxCommands > 0
    && (forall k | 0 <= k < |h.instruments| :: h.instruments[k].id > 0 && h.instruments[k].configuration > 0)
    && (forall j, k | 0 <= j < k < |h.instruments| :: h.instruments[j].id < h.instruments[k].id)
    && FrameSize(h) <= RUN_HEADER_MAX_FRAME_SIZE && FrameSize(h) <= h.maxBytes
  }

  lemma {:induction false} InstrumentsAccepted(instruments: seq<Instrument>, previous: nat)
    ensures InstrumentRefusal(instruments, previous).None? <==>
            && (forall k | 0 <= k < |instruments| ::
                  instruments[k].id > previous && instruments[k].id > 0 && instruments[k].configuration > 0)
            && (forall j, k | 0 <= j < k < |instruments| :: instruments[j].id < instruments[k].id)
  {
    if instruments != [] {
      var first, rest := instruments[0], instruments[1..];
      InstrumentsAccepted(rest, first.id);
      assert instruments == [first] + rest;
      if InstrumentRefusal(instruments, previous).None? {
        forall k | 0 <= k < |instruments|
          ensures instruments[k].id > previous && instruments[k].id > 0 && instruments[k].configuration > 0
        {
          assert k > 0 ==> instruments[k] == rest[k - 1];
        }
        forall j, k | 0 <= j < k < |instruments|
          ensures instruments[j].id < instruments[k].id
        {
          assert instruments[k] == rest[k - 1] && (j > 0 ==> instruments[j] == rest[j - 1]);
        }
      }
    }
  }

  lemma HeaderAccepted(h: Header)
    ensures HeaderRefusal(h).None? <==> WellFormed(h)
  {
    InstrumentsAccepted(h.instruments, 0);
  }

  /** The program's validation loop, with its running predecessor. */
  method ValidateHeader(h: Header) returns (refusal: Option<HeaderError>)
    ensures refusal == HeaderRefusal(h)
    ensures refusal.None? <==> WellFormed(h)
  {
    HeaderAccepted(h);
    if h.run == 0 {
      return Some(HeaderZeroRunId);
    }
    if h.rules != BEHAVIORAL_RULES_VERSION {
      return Some(HeaderUnsupportedRules);
    }
    if h.maxEvents != MAX_EVENTS_PER_COMMAND {
      return Some(HeaderUnsupportedMaxEvents);
    }
    if h.maxCommands == 0 {
      return Some(HeaderZeroMaxCommands);
    }
    var previous: u64 := 0;
    for k := 0 to |h.instruments|
      invariant InstrumentRefusal(h.instruments, 0) == InstrumentRefusal(h.instruments[k..], previous)
    {
      var instrument := h.instruments[k];
      assert h.instruments[k..][1..] == h.instruments[k + 1..];
      if instrument.id == 0 {
        return Some(HeaderZeroInstrument);
      }
      if instrument.configuration == 0 {
        return Some(HeaderZeroConfiguration);
      }
      if instrument.id <= previous {
        return Some(HeaderNotIncreasing);
      }
      previous := instrument.id;
    }
    if |h.instruments| > MAX_INSTRUMENTS {
      return Some(HeaderTooLarge);
    }
    if h.maxBytes < FrameSize(h) {
      return Some(HeaderMaxBytesTooSmall);
    }
    refusal := None;
  }

  // ----- The record

  function EncodeEntry(instrument: Instrument): (bytes: seq<byte>)
    ensures |bytes| == ENTRY_SIZE
  {
    Encode(8, instrument.id) + Encode(4, instrument.configuration)
  }

  function EncodeEntries(instruments: seq<Instrument>): (bytes: seq<byte>)
    ensures |bytes| == ENTRY_SIZE * |instruments|
  {
    if instruments == [] then [] else EncodeEntry(instruments[0]) + EncodeEntries(instruments[1..])
  }

  function FixedPart(h: Header): (bytes: seq<byte>)
    ensures |bytes| == FIXED_PAYLOAD
  {
    Encode(4, h.rules) + Encode(4, h.maxEvents) + Encode(8, h.maxCommands) + Encode(8, h.maxBytes) +
    Encode(4, |h.instruments|) + Encode(4, 0)
  }

  function HeaderFrame(h: Header): (frame: seq<byte>)
    ensures |frame| == FrameSize(h)
  {
    Frame(RUN_HEADER_RECORD_TYPE, h.run, 0, FixedPart(h) + EncodeEntries(h.instruments))
  }

  function DecodeEntry(bytes: seq<byte>): Instrument
    requires |bytes| >= ENTRY_SIZE
  {
    FieldFitsU64(bytes, 0);
    FieldFitsU32(bytes, 8);
    Instrument(Field(bytes, 0, 8), Field(bytes, 8, 4))
  }

  function DecodeEntries(bytes: seq<byte>, count: nat): (instruments: seq<Instrument>)
    requires |bytes| == ENTRY_SIZE * count
    ensures |instruments| == count
    decreases count
  {
    if count == 0 then [] else [DecodeEntry(bytes)] + DecodeEntries(bytes[ENTRY_SIZE..], count - 1)
  }

  function DecodeHeader(input: seq<byte>): Result<Header, HeaderError> {
    if |input| < ENVELOPE_SIZE then Err(HeaderTruncated)
    else if |input| > RUN_HEADER_MAX_FRAME_SIZE then Err(HeaderTooLarge)
    else if input[..4] != MAGIC then Err(HeaderInvalidMagic)
    else if Field(input, 4, 2) != FORMAT_VERSION then Err(HeaderUnsupportedVersion)
    else if Field(input, 6, 2) != RUN_HEADER_RECORD_TYPE then Err(HeaderUnsupportedType)
    else
      var totalLength := Field(input, 8, 4);
      if totalLength < ENVELOPE_SIZE then Err(HeaderInvalidTotalLength)
      else if totalLength > RUN_HEADER_MAX_FRAME_SIZE then Err(HeaderTooLarge)
      else if |input| < totalLength then Err(HeaderTruncated)
      else if |input| > totalLength then Err(HeaderTrailingBytes)
      else if Field(input, 20, 8) != 0 then Err(HeaderNonzeroSequence)
      else
        var payloadLength := Field(input, 28, 4);
        if ENVELOPE_SIZE + payloadLength != totalLength || payloadLength < FIXED_PAYLOAD then
          Err(HeaderInvalidPayloadLength)
        else if Field(input, 32, 4) != FrameChecksum(input) then Err(HeaderChecksumMismatch)
        else
          FieldFitsU64(input, 12);
          DecodePayload(Field(input, 12, 8), input[ENVELOPE_SIZE..])
  }

  function DecodePayload(run: nat, payload: seq<byte>): Result<Header, HeaderError>
    requires |payload| >= FIXED_PAYLOAD && run < U64_LIMIT
  {
    var count, generator := Field(payload, 24, 4), Field(payload, 28, 4);
    if FIXED_PAYLOAD + count * ENTRY_SIZE + generator != |payload| then Err(HeaderInvalidPayloadLength)
    else if generator != 0 then Err(HeaderUnsupportedGenerator)
    else
      FieldFitsU32(payload, 0);
      FieldFitsU32(payload, 4);
      FieldFitsU64(payload, 8);
      FieldFitsU64(payload, 16);
      var header := Header(run, Field(payload, 0, 4), Field(payload, 4, 4), Field(payload, 8, 8), Field(payload, 16, 8),
                           DecodeEntries(payload[FIXED_PAYLOAD..], count));
      var refusal := HeaderRefusal(header);
      if refusal.Some? then Err(refusal.value) else Ok(header)
  }

  // ----- Entries

  lemma EntryRoundTrip(instrument: Instrument, rest: seq<byte>)
    ensures DecodeEntry(EncodeEntry(instrument) + rest) == instrument
  {
    hide Encode, Decode;
    Limits();
    var bytes := EncodeEntry(instrument) + rest;
    assert bytes[0..8] == Encode(8, instrument.id) && bytes[8..12] == Encode(4, instrument.configuration);
    DecodeEncode(8, instrument.id);
    DecodeEncode(4, instrument.configuration);
  }

  lemma {:induction false} EntriesRoundTrip(instruments: seq<Instrument>)
    ensures DecodeEntries(EncodeEntries(instruments), |instruments|) == instruments
  {
    hide EncodeEntry, DecodeEntry;
    if instruments != [] {
      EntryRoundTrip(instruments[0], EncodeEntries(instruments[1..]));
      EntriesRoundTrip(instruments[1..]);
      assert EncodeEntries(instruments)[ENTRY_SIZE..] == EncodeEntries(instruments[1..]);
    }
  }

  lemma {:induction false} EntriesCanonical(bytes: seq<byte>, count: nat)
    requires |bytes| == ENTRY_SIZE * count
    ensures EncodeEntries(DecodeEntries(bytes, count)) == bytes
    decreases count
  {
    if count > 0 {
      var rest := bytes[ENTRY_SIZE..];
      EntriesCanonical(rest, count - 1);
      assert EncodeEntry(DecodeEntry(bytes)) == bytes[..ENTRY_SIZE] by {
        hide Encode, Decode;
        EncodeDecode(bytes[0..8]);
        EncodeDecode(bytes[8..12]);
        assert bytes[..ENTRY_SIZE] == bytes[0..8] + bytes[8..12];
      }
      hide EncodeEntry, DecodeEntry;
      assert DecodeEntries(bytes, count)[1..] == DecodeEntries(rest, count - 1);
      assert bytes == bytes[..ENTRY_SIZE] + rest;
    }
  }

  // ----- The header codec is a bijection

  lemma FixedSlices(a: seq<byte>, b: seq<byte>, c: seq<byte>, d: seq<byte>, e: seq<byte>, f: seq<byte>, rest: seq<byte>)
    requires |a| == 4 && |b| == 4 && |c| == 8 && |d| == 8 && |e| == 4 && |f| == 4
    ensures var s := a + b + c + d + e + f + rest;
            && s[0..4] == a && s[4..8] == b && s[8..16] == c && s[16..24] == d && s[24..28] == e && s[28..32] == f
            && s[32..] == rest
  {
    var s := a + b + c + d + e + f + rest;
    var s6 := a + b + c + d + e + f;
    assert s[..32] == s6 && s6[28..] == f;
    var s5 := a + b + c + d + e;
    assert s6[..28] == s5 && s5[24..] == e;
    var s4 := a + b + c + d;
    assert s5[..24] == s4 && s4[16..] == d;
    assert s4[..16] == a + b + c;
  }

  lemma PayloadRoundTrip(h: Header)
    requires WellFormed(h)
    ensures DecodePayload(h.run, FixedPart(h) + EncodeEntries(h.instruments)) == Ok(h)
  {
    HeaderAccepted(h);
    EntriesRoundTrip(h.instruments);
    hide Encode, Decode, HeaderRefusal, WellFormed, EncodeEntries, DecodeEntries;
    Limits();
    FixedSlices(Encode(4, h.rules), Encode(4, h.maxEvents), Encode(8, h.maxCommands), Encode(8, h.maxBytes),
                Encode(4, |h.instruments|), Encode(4, 0), EncodeEntries(h.instruments));
    DecodeEncode(4, h.rules);
    DecodeEncode(4, h.maxEvents);
    DecodeEncode(8, h.maxCommands);
    DecodeEncode(8, h.maxBytes);
    assert |h.instruments| < U32_LIMIT by { SmallCount(h); }
    DecodeEncode(4, |h.instruments|);
    DecodeEncode(4, 0);
  }

  lemma SmallCount(h: Header)
    requires WellFormed(h)
    ensures |h.instruments| <= MAX_INSTRUMENTS && FrameSize(h) <= RUN_HEADER_MAX_FRAME_SIZE
  {
  }

  lemma HeaderDecodeOfEncode(h: Header)
    requires WellFormed(h)
    ensures DecodeHeader(HeaderFrame(h)) == Ok(h)
  {
    SmallCount(h);
    var payload := FixedPart(h) + EncodeEntries(h.instruments);
    FrameFields(RUN_HEADER_RECORD_TYPE, h.run, 0, payload);
    PayloadRoundTrip(h);
    hide Frame, FixedPart, EncodeEntries, Field, DecodePayload, FrameChecksum;
  }

  lemma HeaderEncodeOfDecode(input: seq<byte>)
    requires DecodeHeader(input).Ok?
    ensures var h := DecodeHeader(input).value; WellFormed(h) && HeaderFrame(h) == input
  {
    HeaderDecodedFields(input);
    var h := DecodeHeader(input).value;
    FrameFromFields(input);
    var payload := input[ENVELOPE_SIZE..];
    PayloadCanonical(Field(input, 12, 8), payload);
    hide DecodeHeader, Frame, FixedPart, EncodeEntries, Field, DecodePayload, FrameChecksum;
  }

  lemma HeaderDecodedFields(input: seq<byte>)
    requires DecodeHeader(input).Ok?
    ensures ENVELOPE_SIZE + FIXED_PAYLOAD <= |input| <= RUN_HEADER_MAX_FRAME_SIZE
    ensures input[..4] == MAGIC && Field(input, 4, 2) == FORMAT_VERSION
    ensures Field(input, 6, 2) == RUN_HEADER_RECORD_TYPE && Field(input, 20, 8) == 0
    ensures Field(input, 8, 4) == |input| && Field(input, 28, 4) == |input| - ENVELOPE_SIZE
    ensures Field(input, 32, 4) == FrameChecksum(input) && Field(input, 12, 8) < U64_LIMIT
    ensures DecodeHeader(input) == DecodePayload(Field(input, 12, 8), input[ENVELOPE_SIZE..])
  {
    FieldFitsU64(input, 12);
    hide Field, FrameChecksum, DecodePayload;
  }

  lemma PayloadCanonical(run: nat, payload: seq<byte>)
    requires |payload| >= FIXED_PAYLOAD && run < U64_LIMIT && DecodePayload(run, payload).Ok?
    ensures var h := DecodePayload(run, payload).value;
            WellFormed(h) && h.run == run && FixedPart(h) + EncodeEntries(h.instruments) == payload
  {
    var h := DecodePayload(run, payload).value;
    HeaderAccepted(h);
    hide Encode, Decode, HeaderRefusal, WellFormed, EncodeEntries, DecodeEntries;
    EntriesCanonical(payload[FIXED_PAYLOAD..], Field(payload, 24, 4));
    EncodeDecode(payload[0..4]);
    EncodeDecode(payload[4..8]);
    EncodeDecode(payload[8..16]);
    EncodeDecode(payload[16..24]);
    EncodeDecode(payload[24..28]);
    EncodeDecode(payload[28..32]);
    FixedPieces(payload);
  }

  lemma FixedPieces(s: seq<byte>)
    requires |s| >= FIXED_PAYLOAD
    ensures s == s[0..4] + s[4..8] + s[8..16] + s[16..24] + s[24..28] + s[28..32] + s[32..]
  {
    assert s[..8] == s[0..4] + s[4..8];
    assert s[..16] == s[..8] + s[8..16];
    assert s[..24] == s[..16] + s[16..24];
    assert s[..28] == s[..24] + s[24..28];
    assert s[..32] == s[..28] + s[28..32];
  }

  // ----- The encoder

  lemma {:induction false} EntriesSnoc(instruments: seq<Instrument>, last: Instrument)
    ensures EncodeEntries(instruments + [last]) == EncodeEntries(instruments) + EncodeEntry(last)
  {
    hide EncodeEntry;
    if instruments == [] {
      assert instruments + [last] == [last];
      assert EncodeEntries([]) == [];
    } else {
      assert (instruments + [last])[1..] == instruments[1..] + [last];
      EntriesSnoc(instruments[1..], last);
    }
  }

  method WriteEntries(buffer: array<byte>, h: Header, ghost written: seq<byte>)
    requires buffer.Length == FrameSize(h) && |written| == FIXED_PAYLOAD
    requires buffer[ENVELOPE_SIZE..ENVELOPE_SIZE + FIXED_PAYLOAD] == written
    modifies buffer
    ensures buffer[..ENVELOPE_SIZE] == old(buffer[..ENVELOPE_SIZE])
    ensures buffer[ENVELOPE_SIZE..] == written + EncodeEntries(h.instruments)
  {
    hide Encode;
    var start := ENVELOPE_SIZE;
    var offset := start + FIXED_PAYLOAD;
    assert EncodeEntries(h.instruments[..0]) == [];
    for k := 0 to |h.instruments|
      invariant offset == start + FIXED_PAYLOAD + ENTRY_SIZE * k
      invariant buffer[..start] == old(buffer[..start])
      invariant buffer[start..offset] == written + EncodeEntries(h.instruments[..k])
    {
      var instrument := h.instruments[k];
      ghost var w := written + EncodeEntries(h.instruments[..k]);
      Put(buffer, start, offset, w, 8, instrument.id);
      Put(buffer, start, offset + 8, w + Encode(8, instrument.id), 4, instrument.configuration);
      assert h.instruments[..k + 1] == h.instruments[..k] + [instrument];
      EntriesSnoc(h.instruments[..k], instrument);
      assert w + Encode(8, instrument.id) + Encode(4, instrument.configuration) ==
             written + (EncodeEntries(h.instruments[..k]) + EncodeEntry(instrument));
      offset := offset + ENTRY_SIZE;
    }
    assert h.instruments[..|h.instruments|] == h.instruments;
    assert buffer[start..] == buffer[start..offset];
  }

  method WriteFixedPart(buffer: array<byte>, h: Header)
    requires buffer.Length >= ENVELOPE_SIZE + FIXED_PAYLOAD
    modifies buffer
    ensures buffer[..ENVELOPE_SIZE] == old(buffer[..ENVELOPE_SIZE])
    ensures buffer[ENVELOPE_SIZE..ENVELOPE_SIZE + FIXED_PAYLOAD] == FixedPart(h)
  {
    hide Encode;
    var start := ENVELOPE_SIZE;
    Put(buffer, start, start, [], 4, h.rules);
    ghost var w := Encode(4, h.rules);
    Put(buffer, start, start + 4, w, 4, h.maxEvents);
    w := w + Encode(4, h.maxEvents);
    Put(buffer, start, start + 8, w, 8, h.maxCommands);
    w := w + Encode(8, h.maxCommands);
    Put(buffer, start, start + 16, w, 8, h.maxBytes);
    w := w + Encode(8, h.maxBytes);
    Put(buffer, start, start + 24, w, 4, |h.instruments|);
    w := w + Encode(4, |h.instruments|);
    Put(buffer, start, start + 28, w, 4, 0);
  }

  method EncodeHeader(h: Header) returns (result: Result<seq<byte>, HeaderError>)
    ensures result == if HeaderRefusal(h).Some? then Err(HeaderRefusal(h).value) else Ok(HeaderFrame(h))
  {
    var refusal := ValidateHeader(h);
    if refusal.Some? {
      return Err(refusal.value);
    }
    hide HeaderFrame, HeaderRefusal;
    var frame := BuildHeader(h);
    result := Ok(frame);
  }

  lemma HeaderParts(h: Header)
    ensures ENVELOPE_SIZE + FIXED_PAYLOAD <= FrameSize(h) && |FixedPart(h)| == FIXED_PAYLOAD
    ensures var payload := FixedPart(h) + EncodeEntries(h.instruments);
            var head := Head(RUN_HEADER_RECORD_TYPE, h.run, 0, FrameSize(h) - ENVELOPE_SIZE);
            HeaderFrame(h) == head + Encode(4, Checksum(head + payload)) + payload
  {
    hide Head, Encode, Checksum, EncodeEntries;
  }

  /** Envelope, fixed part, entries, and at last the checksum over all of them. */
  method BuildHeader(h: Header) returns (frame: seq<byte>)
    ensures frame == HeaderFrame(h)
  {
    hide Head, Encode, Checksum, FixedPart, EncodeEntries, HeaderFrame, FrameSize;
    HeaderParts(h);
    var payloadSize := FrameSize(h) - ENVELOPE_SIZE;
    var buffer := new byte[FrameSize(h)](_ => 0);
    WriteEnvelope(buffer, RUN_HEADER_RECORD_TYPE, h.run, 0, payloadSize);
    ghost var head := buffer[..CHECKSUM_OFFSET];
    ghost var front := buffer[..ENVELOPE_SIZE];
    assert front[..CHECKSUM_OFFSET] == head;
    WriteFixedPart(buffer, h);
    WriteEntries(buffer, h, FixedPart(h));
    assert buffer[..CHECKSUM_OFFSET] == buffer[..ENVELOPE_SIZE][..CHECKSUM_OFFSET];
    WriteChecksum(buffer, head, FixedPart(h) + EncodeEntries(h.instruments));
    frame := buffer[..];
  }
}
