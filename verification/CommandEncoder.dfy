/** The encoders: fields written in place into a buffer of the final size, the checksum last. */
module CommandEncoder {
  import opened LittleEndian
  import opened Crc32c
  import opened Domain
  import opened JournalFrame
  import opened CommandCodec

  /** Writes one field right behind what has been written from `start` on. */
  method Put(buffer: array<byte>, start: nat, offset: nat, ghost written: seq<byte>, width: nat, value: nat)
    requires start <= offset && offset + width <= buffer.Length && buffer[start..offset] == written
    modifies buffer
    ensures buffer[start..offset + width] == written + Encode(width, value)
    ensures buffer[..start] == old(buffer[..start]) && buffer[offset + width..] == old(buffer[offset + width..])
  {
    hide Encode;
    ghost var before := buffer[..];
    Write(buffer, offset, width, value);
    ghost var after := buffer[..];
    OverlayParts(before, start, offset, Encode(width, value));
    assert buffer[start..offset + width] == after[start..offset + width];
    assert buffer[..start] == after[..start] && before[..start] == old(buffer[..start]);
    assert buffer[offset + width..] == after[offset + width..];
    assert before[offset + width..] == old(buffer[offset + width..]);
    assert before[start..offset] == written;
  }

  lemma OverlayParts(before: seq<byte>, start: nat, offset: nat, bytes: seq<byte>)
    requires start <= offset && offset + |bytes| <= |before|
    ensures var after := Overlay(before, offset, bytes);
            && after[start..offset + |bytes|] == before[start..offset] + bytes
            && after[..start] == before[..start]
            && after[offset + |bytes|..] == before[offset + |bytes|..]
  {
  }

  /** Copies bytes right behind what has been written from `start` on. */
  method PutBytes(buffer: array<byte>, start: nat, offset: nat, ghost written: seq<byte>, bytes: seq<byte>)
    requires start <= offset && offset + |bytes| <= buffer.Length && buffer[start..offset] == written
    modifies buffer
    ensures buffer[start..offset + |bytes|] == written + bytes
    ensures buffer[..start] == old(buffer[..start]) && buffer[offset + |bytes|..] == old(buffer[offset + |bytes|..])
  {
    for k := 0 to |bytes|
      invariant buffer[start..offset + k] == written + bytes[..k]
      invariant buffer[..start] == old(buffer[..start])
      invariant buffer[offset + k..] == old(buffer[offset + k..])
    {
      ghost var before := buffer[..];
      buffer[offset + k] := bytes[k];
      assert buffer[start..offset + k] == before[start..offset + k];
      assert buffer[..start] == before[..start];
      assert buffer[offset + k + 1..] == before[offset + k..][1..];
      assert buffer[start..offset + k + 1] == buffer[start..offset + k] + [bytes[k]];
      assert old(buffer[offset + k..])[1..] == old(buffer[offset + k + 1..]);
    }
    assert bytes[..|bytes|] == bytes;
  }

  method WriteEnvelope(buffer: array<byte>, recordType: nat, run: u64, sequence: u64, payloadLength: nat)
    requires buffer.Length == ENVELOPE_SIZE + payloadLength
    modifies buffer
    ensures buffer[..CHECKSUM_OFFSET] == Head(recordType, run, sequence, payloadLength)
  {
    hide Encode;
    PutBytes(buffer, 0, 0, [], MAGIC);
    ghost var w := MAGIC;
    Put(buffer, 0, 4, w, 2, FORMAT_VERSION);
    w := w + Encode(2, FORMAT_VERSION);
    Put(buffer, 0, 6, w, 2, recordType);
    w := w + Encode(2, recordType);
    Put(buffer, 0, 8, w, 4, ENVELOPE_SIZE + payloadLength);
    w := w + Encode(4, ENVELOPE_SIZE + payloadLength);
    Put(buffer, 0, 12, w, 8, run);
    w := w + Encode(8, run);
    Put(buffer, 0, 20, w, 8, sequence);
    w := w + Encode(8, sequence);
    Put(buffer, 0, 28, w, 4, payloadLength);
    assert buffer[..CHECKSUM_OFFSET] == buffer[0..32];
  }

  /** Closes a frame: computes the checksum over the two slices around the checksum field and stores it. */
  method WriteChecksum(buffer: array<byte>, ghost head: seq<byte>, ghost payload: seq<byte>)
    requires buffer.Length >= ENVELOPE_SIZE
    requires buffer[..CHECKSUM_OFFSET] == head && buffer[ENVELOPE_SIZE..] == payload
    modifies buffer
    ensures buffer[..] == head + Encode(4, Checksum(head + payload)) + payload
  {
    hide Encode, Checksum;
    var checksum := ChecksumOfSlices(buffer[..CHECKSUM_OFFSET], buffer[ENVELOPE_SIZE..]);
    ghost var before := buffer[..];
    Write(buffer, CHECKSUM_OFFSET, 4, checksum);
    assert before[..CHECKSUM_OFFSET] == head && before[ENVELOPE_SIZE..] == payload;
  }

  method WriteCommonPart(buffer: array<byte>, c: Command)
    requires buffer.Length >= ENVELOPE_SIZE + 25 + |c.commandId|
    modifies buffer
    ensures buffer[..ENVELOPE_SIZE] == old(buffer[..ENVELOPE_SIZE])
    ensures buffer[ENVELOPE_SIZE..ENVELOPE_SIZE + 25 + |c.commandId|] == CommonPart(c)
  {
    hide Encode;
    var start := ENVELOPE_SIZE;
    Put(buffer, start, start, [], 4, c.rules);
    ghost var w := Encode(4, c.rules);
    Put(buffer, start, start + 4, w, 4, c.configuration);
    w := w + Encode(4, c.configuration);
    Put(buffer, start, start + 8, w, 8, c.clientId);
    w := w + Encode(8, c.clientId);
    Put(buffer, start, start + 16, w, 8, c.instrumentId);
    w := w + Encode(8, c.instrumentId);
    PutBytes(buffer, start, start + 24, w, [|c.commandId|]);
    w := w + [|c.commandId|];
    PutBytes(buffer, start, start + 25, w, c.commandId);
  }

  method WriteTail(buffer: array<byte>, c: Command, ghost written: seq<byte>)
    requires buffer.Length == ENVELOPE_SIZE + 25 + |c.commandId| + |Tail(c)|
    requires buffer[ENVELOPE_SIZE..ENVELOPE_SIZE + 25 + |c.commandId|] == written
    modifies buffer
    ensures buffer[..ENVELOPE_SIZE] == old(buffer[..ENVELOPE_SIZE])
    ensures buffer[ENVELOPE_SIZE..] == written + Tail(c)
  {
    hide Encode;
    var start := ENVELOPE_SIZE;
    var variable := start + 25 + |c.commandId|;
    match c {
      case NewOrder(_, _, _, _, _, _, _, side, tif, price, quantity) =>
        PutBytes(buffer, start, variable, written, [SideCode(side), TifCode(tif)]);
        ghost var w := written + [SideCode(side), TifCode(tif)];
        Put(buffer, start, variable + 2, w, 8, price);
        w := w + Encode(8, price);
        Put(buffer, start, variable + 10, w, 8, quantity);
        assert w + Encode(8, quantity) == written + Tail(c);
      case Cancel(_, _, _, _, _, _, _, targetOrderId) =>
        Put(buffer, start, variable, written, 8, targetOrderId);
    }
    assert buffer[start..] == buffer[start..buffer.Length];
  }

  /** Encodes a command, or says why it refuses to. */
  method EncodeCommand(c: Command) returns (result: Result<seq<byte>, CommandError>)
    ensures result == if Refusal(c).Some? then Err(Refusal(c).value) else Ok(FrameOf(c))
  {
    var refusal := Refusal(c);
    if refusal.Some? {
      return Err(refusal.value);
    }
    PayloadSize(c);
    hide CommonPart, Tail, Head, Encode, Checksum;
    var payloadLength := FixedPayload(RecordType(c)) + |c.commandId|;
    var buffer := new byte[ENVELOPE_SIZE + payloadLength](_ => 0);
    WriteEnvelope(buffer, RecordType(c), c.run, c.sequence, payloadLength);
    ghost var head := buffer[..CHECKSUM_OFFSET];
    ghost var front := buffer[..ENVELOPE_SIZE];
    WriteCommonPart(buffer, c);
    WriteTail(buffer, c, CommonPart(c));
    assert buffer[..ENVELOPE_SIZE] == front && front[..CHECKSUM_OFFSET] == head;
    assert buffer[..CHECKSUM_OFFSET] == buffer[..ENVELOPE_SIZE][..CHECKSUM_OFFSET];
    WriteChecksum(buffer, head, Payload(c));
    result := Ok(buffer[..]);
  }
}
