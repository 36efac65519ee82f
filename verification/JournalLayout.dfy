/** Where every field of a journal record stands, byte by byte, and which field of a message it comes from. */
module JournalLayout {
  import opened LittleEndian
  import opened Crc32c
  import opened Domain
  import opened JournalFrame
  import opened CommandCodec
  import opened HeaderCodec
  import opened Replay

  /** The little-endian number at an offset, spelled out for the widths the journal uses. */
  function Number(bytes: seq<byte>, offset: nat, width: nat): nat
    requires offset + width <= |bytes| && (width == 2 || width == 4 || width == 8)
  {
    var low := Pair(bytes[offset], bytes[offset + 1]);
    if width == 2 then low
    else
      var lower := low + 0x1_0000 * Pair(bytes[offset + 2], bytes[offset + 3]);
      if width == 4 then lower
      else
        lower + 0x1_0000_0000 * (Pair(bytes[offset + 4], bytes[offset + 5]) +
                                 0x1_0000 * Pair(bytes[offset + 6], bytes[offset + 7]))
  }

  function Pair(low: nat, high: nat): nat {
    low + 0x100 * high
  }

  lemma DecodeTwo(s: seq<byte>)
    requires |s| == 2
    ensures Decode(s) == Pair(s[0], s[1])
  {
    assert Decode(s) == s[0] + 256 * Decode(s[1..]);
    assert Decode(s[1..]) == s[1] + 256 * Decode(s[1..][1..]);
    assert s[1..][1..] == [];
  }

  lemma DecodeFour(s: seq<byte>)
    requires |s| == 4
    ensures Decode(s) == Pair(s[0], s[1]) + 0x1_0000 * Pair(s[2], s[3])
  {
    DecodeTwo(s[2..]);
    assert s[1..][1..] == s[2..];
    assert Decode(s) == s[0] + 256 * Decode(s[1..]);
    assert Decode(s[1..]) == s[1] + 256 * Decode(s[2..]);
  }

  lemma DecodeEight(s: seq<byte>)
    requires |s| == 8
    ensures Decode(s) ==
            Pair(s[0], s[1]) + 0x1_0000 * Pair(s[2], s[3]) +
            0x1_0000_0000 * (Pair(s[4], s[5]) + 0x1_0000 * Pair(s[6], s[7]))
  {
    DecodeFour(s[4..]);
    assert s[1..][1..] == s[2..] && s[2..][1..] == s[3..] && s[3..][1..] == s[4..];
    assert Decode(s) == s[0] + 256 * Decode(s[1..]);
    assert Decode(s[1..]) == s[1] + 256 * Decode(s[2..]);
    assert Decode(s[2..]) == s[2] + 256 * Decode(s[3..]);
    assert Decode(s[3..]) == s[3] + 256 * Decode(s[4..]);
  }

  lemma FieldIsNumber(bytes: seq<byte>, offset: nat, width: nat)
    requires offset + width <= |bytes| && (width == 2 || width == 4 || width == 8)
    ensures Field(bytes, offset, width) == Number(bytes, offset, width)
  {
    var s := bytes[offset..offset + width];
    if width == 2 {
      DecodeTwo(s);
    } else if width == 4 {
      DecodeFour(s);
    } else {
      DecodeEight(s);
    }
  }

  /** A field of the payload stands 36 bytes further in the record. */
  lemma PayloadField(frame: seq<byte>, payload: seq<byte>, offset: nat, width: nat)
    requires |frame| >= 36 && frame[36..] == payload && offset + width <= |payload|
    requires width == 2 || width == 4 || width == 8
    ensures Number(frame, 36 + offset, width) == Field(payload, offset, width)
  {
    hide Decode, Number;
    assert frame[36 + offset..36 + offset + width] == payload[offset..offset + width];
    FieldIsNumber(frame, 36 + offset, width);
  }

  /** The envelope every record starts with. */
  ghost predicate HasEnvelope(frame: seq<byte>, recordType: nat, run: nat, sequence: nat) {
    && |frame| >= 36 && frame[..4] == [0x46, 0x58, 0x4A, 0x52] // "FXJR"
    && Number(frame, 4, 2) == 1 && Number(frame, 6, 2) == recordType && Number(frame, 8, 4) == |frame|
    && Number(frame, 12, 8) == run && Number(frame, 20, 8) == sequence && Number(frame, 28, 4) == |frame| - 36
    && Number(frame, 32, 4) == Checksum(frame[..32] + frame[36..])
  }

  lemma FrameHasEnvelope(recordType: nat, run: u64, sequence: u64, payload: seq<byte>)
    requires recordType < 0x1_0000 && 36 + |payload| < U32_LIMIT
    ensures HasEnvelope(Frame(recordType, run, sequence, payload), recordType, run, sequence)
  {
    hide Field, Number, Checksum, Frame;
    var frame := Frame(recordType, run, sequence, payload);
    FrameFields(recordType, run, sequence, payload);
    FieldIsNumber(frame, 4, 2);
    FieldIsNumber(frame, 6, 2);
    FieldIsNumber(frame, 8, 4);
    FieldIsNumber(frame, 12, 8);
    FieldIsNumber(frame, 20, 8);
    FieldIsNumber(frame, 28, 4);
    FieldIsNumber(frame, 32, 4);
  }

  /** The record of a command: envelope, context, client identity, then what only its type has. */
  lemma RecordLayout(c: Command)
    requires Encodable(c)
    ensures HasEnvelope(FrameOf(c), if c.NewOrder? then 2 else 3, c.run, c.sequence)
    ensures var frame, n := FrameOf(c), |c.commandId|;
            && |frame| == (if c.NewOrder? then 79 else 69) + n
            && Number(frame, 36, 4) == c.rules && Number(frame, 40, 4) == c.configuration
            && Number(frame, 44, 8) == c.clientId && Number(frame, 52, 8) == c.instrumentId
            && frame[60] == n && frame[61..61 + n] == c.commandId
            && (c.NewOrder? ==>
                  && frame[61 + n] == (if c.side.Buy? then 1 else 2)
                  && frame[62 + n] == (if c.tif == GTC then 1 else 2)
                  && Number(frame, 63 + n, 8) == c.price && Number(frame, 71 + n, 8) == c.quantity)
            && (c.Cancel? ==> Number(frame, 61 + n, 8) == c.targetOrderId)
  {
    hide Field, Number, Checksum, Frame, HasEnvelope, Payload, Tail;
    var frame, payload, n := FrameOf(c), Payload(c), |c.commandId|;
    PayloadSize(c);
    FrameHasEnvelope(RecordType(c), c.run, c.sequence, payload);
    FrameFields(RecordType(c), c.run, c.sequence, payload);
    PayloadFields(c);
    PayloadField(frame, payload, 0, 4);
    PayloadField(frame, payload, 4, 4);
    PayloadField(frame, payload, 8, 8);
    PayloadField(frame, payload, 16, 8);
    assert frame[60] == payload[24] && frame[61..61 + n] == payload[25..25 + n];
    TailLayout(c, payload);
    if c.NewOrder? {
      PayloadField(frame, payload, 27 + n, 8);
      PayloadField(frame, payload, 35 + n, 8);
      assert frame[61 + n] == payload[25 + n] && frame[62 + n] == payload[26 + n];
    } else {
      PayloadField(frame, payload, 25 + n, 8);
    }
  }

  lemma TailLayout(c: Command, payload: seq<byte>)
    requires |payload| >= 25 + |c.commandId| && payload[25 + |c.commandId|..] == Tail(c)
    ensures var n := |c.commandId|;
            && |payload| == (if c.NewOrder? then 43 else 33) + n
            && (c.NewOrder? ==>
                  && payload[25 + n] == (if c.side.Buy? then 1 else 2)
                  && payload[26 + n] == (if c.tif == GTC then 1 else 2)
                  && Field(payload, 27 + n, 8) == c.price && Field(payload, 35 + n, 8) == c.quantity)
            && (c.Cancel? ==> Field(payload, 25 + n, 8) == c.targetOrderId)
  {
    hide Encode, Decode;
    Limits();
    var n, tail := |c.commandId|, Tail(c);
    if c.NewOrder? {
      assert payload[25 + n] == tail[0] && payload[26 + n] == tail[1];
      assert payload[27 + n..35 + n] == tail[2..10] == Encode(8, c.price);
      assert payload[35 + n..43 + n] == tail[10..18] == Encode(8, c.quantity);
      DecodeEncode(8, c.price);
      DecodeEncode(8, c.quantity);
    } else {
      assert payload[25 + n..33 + n] == tail == Encode(8, c.targetOrderId);
      DecodeEncode(8, c.targetOrderId);
    }
  }

  /** Which 36 bytes the reader takes for the envelope of a command, before it sees the payload. */
  lemma EnvelopeAccepted(head: seq<byte>)
    requires |head| == 36
    ensures ValidateCommandEnvelope(head, 0, false).Ok? <==>
            && head[..4] == [0x46, 0x58, 0x4A, 0x52] && Number(head, 4, 2) == 1
            && Number(head, 6, 2) in {2, 3} && Number(head, 12, 8) != 0 && Number(head, 20, 8) != 0
            && Number(head, 8, 4) == 36 + Number(head, 28, 4)
            && 1 <= Number(head, 28, 4) - (if Number(head, 6, 2) == 2 then 43 else 33) <= 64
    ensures ValidateCommandEnvelope(head, 0, false).Ok? ==>
              var e := ValidateCommandEnvelope(head, 0, false).value;
              && e.totalLength == Number(head, 8, 4) && e.run == Number(head, 12, 8) && e.sequence == Number(head, 20, 8)
  {
    hide Number, Field, FrameChecksum;
    FieldIsNumber(head, 4, 2);
    FieldIsNumber(head, 6, 2);
    FieldIsNumber(head, 8, 4);
    FieldIsNumber(head, 12, 8);
    FieldIsNumber(head, 20, 8);
    FieldIsNumber(head, 28, 4);
  }

  /** What the journal of a run says about a message, read off the bytes. */
  lemma MessageLayout(h: Header, m: Message)
    requires CommandOf(h, m).Some? && Encodable(CommandOf(h, m).value)
    ensures m.clientCommandId.Some?
    ensures var frame, n := FrameOf(CommandOf(h, m).value), |m.clientCommandId.value|;
            && HasEnvelope(frame, if m.kind.CANCEL? then 3 else 2, h.run, m.sequence)
            && |frame| == (if m.kind.CANCEL? then 69 else 79) + n
            && Number(frame, 36, 4) == h.rules && Number(frame, 40, 4) == m.configurationVersion
            && Number(frame, 44, 8) == m.clientId && Number(frame, 52, 8) == m.instrumentId
            && frame[60] == n && frame[61..61 + n] == m.clientCommandId.value
            && (if m.kind.CANCEL? then m.targetOrderId == Some(Number(frame, 61 + n, 8))
                else
                  && frame[61 + n] == (if m.kind.BUY? then 1 else 2)
                  && frame[62 + n] == (if m.tif == GTC then 1 else 2)
                  && Number(frame, 63 + n, 8) == m.price && Number(frame, 71 + n, 8) == m.quantity)
  {
    hide Number, HasEnvelope, FrameOf, Encodable;
    RecordLayout(CommandOf(h, m).value);
  }

  /** The header of a run: its limits, then the instruments in order. */
  lemma HeaderLayout(h: Header)
    requires WellFormed(h)
    ensures HasEnvelope(HeaderFrame(h), 1, h.run, 0)
    ensures var frame := HeaderFrame(h);
            && |frame| == 68 + 12 * |h.instruments|
            && Number(frame, 36, 4) == h.rules && Number(frame, 40, 4) == h.maxEvents
            && Number(frame, 44, 8) == h.maxCommands && Number(frame, 52, 8) == h.maxBytes
            && Number(frame, 60, 4) == |h.instruments| && Number(frame, 64, 4) == 0
    ensures forall k {:trigger h.instruments[k]} | 0 <= k < |h.instruments| ::
              && Number(HeaderFrame(h), 68 + 12 * k, 8) == h.instruments[k].id
              && Number(HeaderFrame(h), 76 + 12 * k, 4) == h.instruments[k].configuration
  {
    hide Field, Number, Checksum, Frame, HasEnvelope, FixedPart, EncodeEntries, WellFormed;
    SmallCount(h);
    var frame, payload := HeaderFrame(h), FixedPart(h) + EncodeEntries(h.instruments);
    FrameHasEnvelope(RUN_HEADER_RECORD_TYPE, h.run, 0, payload);
    FrameFields(RUN_HEADER_RECORD_TYPE, h.run, 0, payload);
    FixedFields(h, payload);
    PayloadField(frame, payload, 0, 4);
    PayloadField(frame, payload, 4, 4);
    PayloadField(frame, payload, 8, 8);
    PayloadField(frame, payload, 16, 8);
    PayloadField(frame, payload, 24, 4);
    PayloadField(frame, payload, 28, 4);
    forall k | 0 <= k < |h.instruments|
      ensures Number(frame, 68 + 12 * k, 8) == h.instruments[k].id
      ensures Number(frame, 76 + 12 * k, 4) == h.instruments[k].configuration
    {
      EntryAt(h.instruments, payload[32..], k);
      SliceBehind(payload, 32, 12 * k, 8);
      SliceBehind(payload, 32, 12 * k + 8, 4);
      PayloadField(frame, payload, 32 + 12 * k, 8);
      PayloadField(frame, payload, 40 + 12 * k, 4);
    }
  }

  lemma SliceBehind(bytes: seq<byte>, from: nat, offset: nat, width: nat)
    requires from + offset + width <= |bytes|
    ensures Field(bytes[from..], offset, width) == Field(bytes, from + offset, width)
  {
    assert bytes[from..][offset..offset + width] == bytes[from + offset..from + offset + width];
  }

  lemma FixedFields(h: Header, payload: seq<byte>)
    requires |h.instruments| < U32_LIMIT && payload == FixedPart(h) + EncodeEntries(h.instruments)
    ensures |payload| == 32 + 12 * |h.instruments| && payload[32..] == EncodeEntries(h.instruments)
    ensures && Field(payload, 0, 4) == h.rules && Field(payload, 4, 4) == h.maxEvents
            && Field(payload, 8, 8) == h.maxCommands && Field(payload, 16, 8) == h.maxBytes
            && Field(payload, 24, 4) == |h.instruments| && Field(payload, 28, 4) == 0
  {
    hide Encode, Decode, EncodeEntries;
    Limits();
    FixedSlices(Encode(4, h.rules), Encode(4, h.maxEvents), Encode(8, h.maxCommands), Encode(8, h.maxBytes),
                Encode(4, |h.instruments|), Encode(4, 0), EncodeEntries(h.instruments));
    DecodeEncode(4, h.rules);
    DecodeEncode(4, h.maxEvents);
    DecodeEncode(8, h.maxCommands);
    DecodeEncode(8, h.maxBytes);
    DecodeEncode(4, |h.instruments|);
    DecodeEncode(4, 0);
  }

  /** Instrument `k` takes the twelve bytes behind the first `k`. */
  lemma {:induction false} EntryAt(instruments: seq<Instrument>, entries: seq<byte>, k: nat)
    requires k < |instruments| && entries == EncodeEntries(instruments)
    ensures |entries| == 12 * |instruments|
    ensures Field(entries, 12 * k, 8) == instruments[k].id && Field(entries, 12 * k + 8, 4) == instruments[k].configuration
    decreases k
  {
    hide Encode, Decode;
    if k == 0 {
      Limits();
      DecodeEncode(8, instruments[0].id);
      DecodeEncode(4, instruments[0].configuration);
      assert entries[..12] == EncodeEntry(instruments[0]);
      assert entries[0..8] == entries[..12][0..8] && entries[8..12] == entries[..12][8..12];
    } else {
      assert entries[12..] == EncodeEntries(instruments[1..]);
      EntryAt(instruments[1..], entries[12..], k - 1);
      SliceBehind(entries, 12, 12 * (k - 1), 8);
      SliceBehind(entries, 12, 12 * (k - 1) + 8, 4);
    }
  }
}
