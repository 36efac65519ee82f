/** Reading a journal through a descriptor that may return short reads, be interrupted, or fail. */
module JournalReader {
  import opened LittleEndian
  import opened Domain
  import opened JournalFrame
  import opened CommandCodec
  import opened HeaderCodec
  import opened JournalFile
  import opened StorageFile

  /** Retries interrupts; an error ends the read. */
  method ReadSome(d: Descriptor, size: nat) returns (data: seq<byte>, error: Option<nat>)
    requires d.Valid() && size > 0
    modifies d`position, d`fates
    ensures d.Valid() && old(d.position) <= d.position && Onward(old(d.fates), d.fates)
    ensures error.None? ==> data == d.bytes[old(d.position)..d.position] && |data| <= size
    ensures error.None? && data == [] ==> d.position == |d.bytes|
    ensures Healthy(old(d.fates)) ==> error.None?
  {
    while true
      invariant d.Valid() && d.position == old(d.position) && Onward(old(d.fates), d.fates)
      decreases |d.fates|
    {
      var fate;
      data, fate := d.ReadFile(size);
      match fate {
        case Moves(_) => return data, None;
        case Interrupted =>
        case Fails(systemError) => return [], Some(systemError);
        case Misreports => return [], Some(EIO);
      }
    }
  }

  /** Fills a buffer of `size` bytes unless the file ends or fails first. */
  method ReadExact(d: Descriptor, size: nat) returns (data: seq<byte>, error: Option<nat>)
    requires d.Valid()
    modifies d`position, d`fates
    ensures d.Valid() && old(d.position) <= d.position && Onward(old(d.fates), d.fates)
    ensures error.None? ==> data == d.bytes[old(d.position)..d.position] && |data| <= size
    ensures error.None? && |data| < size ==> d.position == |d.bytes|
    ensures Healthy(old(d.fates)) ==> error.None?
  {
    data, error := [], None;
    while |data| < size
      invariant d.Valid() && old(d.position) <= d.position && |data| <= size && Onward(old(d.fates), d.fates)
      invariant data == d.bytes[old(d.position)..d.position]
      invariant error.None?
      decreases size - |data|
    {
      var more;
      more, error := ReadSome(d, size - |data|);
      if error.Some? {
        return;
      }
      if more == [] {
        return;
      }
      data := data + more;
    }
  }

  datatype ReadOutcome =
    | Completed(loaded: Loaded)
    | IoFailure(systemError: nat)

  /** The header is read envelope first, then the length the envelope announces. */
  method ReadHeader(d: Descriptor) returns (outcome: Result<Header, ReadOutcome>)
    requires d.Valid() && d.position == 0
    modifies d`position, d`fates
    ensures d.Valid() && Onward(old(d.fates), d.fates)
    ensures outcome.Ok? ==>
              Parse(d.bytes) == ParseCommands(outcome.value, d.bytes, d.position, []) && d.position <= |d.bytes|
    ensures outcome.Err? && outcome.error.Completed? ==> outcome.error.loaded == Parse(d.bytes)
    ensures Healthy(old(d.fates)) ==> (outcome.Err? ==> outcome.error.Completed?)
  {
    hide ParseCommands, Field, DecodeHeader, Healthy, Uninterrupted;
    var envelope, error := ReadExact(d, ENVELOPE_SIZE);
    if error.Some? {
      return Err(IoFailure(error.value));
    }
    if |envelope| != ENVELOPE_SIZE {
      return Err(Completed(Corruption(HeaderCorrupt(HeaderTruncated))));
    }
    assert d.bytes[..ENVELOPE_SIZE] == envelope;
    FieldOfLonger(d.bytes, envelope, 8, 4);
    var headerLength := Read(envelope, 8, 4);
    assert headerLength == Field(envelope, 8, 4) by { FieldIs(envelope, 8, 4); }
    if headerLength < ENVELOPE_SIZE {
      return Err(Completed(Corruption(HeaderCorrupt(HeaderInvalidTotalLength))));
    }
    if headerLength > RUN_HEADER_MAX_FRAME_SIZE {
      return Err(Completed(Corruption(HeaderCorrupt(HeaderTooLarge))));
    }
    var payload;
    payload, error := ReadExact(d, headerLength - ENVELOPE_SIZE);
    if error.Some? {
      return Err(IoFailure(error.value));
    }
    if |payload| != headerLength - ENVELOPE_SIZE {
      return Err(Completed(Corruption(HeaderCorrupt(HeaderTruncated))));
    }
    var frame := envelope + payload;
    assert frame == d.bytes[..headerLength];
    var decoded := DecodeHeader(frame);
    if decoded.Err? {
      return Err(Completed(Corruption(HeaderCorrupt(decoded.error))));
    }
    outcome := Ok(decoded.value);
  }

  lemma FieldIs(bytes: seq<byte>, offset: nat, width: nat)
    requires offset + width <= |bytes|
    ensures Field(bytes, offset, width) == Decode(bytes[offset..offset + width])
  {
  }

  lemma ParseStep(h: Header, file: seq<byte>, position: nat, commands: seq<Command>)
    requires position <= |file|
    ensures var turn := ParseOne(h, file, position, commands);
            ParseCommands(h, file, position, commands) ==
            if turn.Stop? then turn.loaded else ParseCommands(h, file, position + turn.length, commands + [turn.command])
  {
    hide ParseOne;
  }

  /** The reading loop. However the reads are chunked, a completed load is `Parse` of the file. */
  method ReadJournal(d: Descriptor) returns (outcome: ReadOutcome)
    requires d.Valid() && d.position == 0
    modifies d`position, d`fates
    ensures d.Valid() && Onward(old(d.fates), d.fates)
    ensures outcome.Completed? ==> outcome.loaded == Parse(d.bytes)
    ensures Healthy(old(d.fates)) ==> outcome.Completed?
  {
    hide Parse, ParseOne, ParseCommands, Healthy, Uninterrupted;
    var header := ReadHeader(d);
    if header.Err? {
      return header.error;
    }
    var h := header.value;
    var commands: seq<Command> := [];
    var committed := d.position;
    while true
      invariant d.Valid() && committed == d.position && Onward(old(d.fates), d.fates)
      invariant Parse(d.bytes) == ParseCommands(h, d.bytes, committed, commands)
      decreases |d.bytes| - committed
    {
      ParseStep(h, d.bytes, committed, commands);
      var turn := ReadCommand(d, h, commands);
      if turn.Err? {
        return IoFailure(turn.error);
      }
      if turn.value.Stop? {
        return Completed(turn.value.loaded);
      }
      commands := commands + [turn.value.command];
      committed := committed + turn.value.length;
    }
  }

  /** One turn of the loop: the envelope, its checks, then the payload it announces. */
  method ReadCommand(d: Descriptor, h: Header, commands: seq<Command>) returns (turn: Result<Turn, nat>)
    requires d.Valid()
    modifies d`position, d`fates
    ensures d.Valid() && Onward(old(d.fates), d.fates)
    ensures turn.Ok? ==> turn.value == ParseOne(h, d.bytes, old(d.position), commands)
    ensures turn.Ok? && turn.value.More? ==> d.position == old(d.position) + turn.value.length
    ensures Healthy(old(d.fates)) ==> turn.Ok?
  {
    hide ValidateCommandEnvelope, DecodeCommand, HasConfiguration, Healthy, Uninterrupted;
    var committed := d.position;
    var first, error := ReadSome(d, ENVELOPE_SIZE);
    if error.Some? {
      return Err(error.value);
    }
    if first == [] {
      return Ok(Stop(Intact(h, commands, committed)));
    }
    if |commands| >= h.maxCommands {
      return Ok(Stop(Corruption(CommandCapacityExceeded)));
    }
    var rest;
    rest, error := ReadExact(d, ENVELOPE_SIZE - |first|);
    if error.Some? {
      return Err(error.value);
    }
    var envelope := first + rest;
    assert envelope == d.bytes[committed..d.position];
    if |envelope| < ENVELOPE_SIZE {
      if ExceedsCapacity(committed, |envelope|, h.maxBytes) {
        return Ok(Stop(Corruption(ByteCapacityExceeded)));
      }
      return Ok(Stop(IncompleteTail(h, commands, committed, |envelope|)));
    }
    var checked := ValidateCommandEnvelope(envelope, 0, false);
    if checked.Err? {
      return Ok(Stop(Corruption(CommandCorrupt(checked.error))));
    }
    EnvelopeFields(envelope);
    hide Field;
    var e := checked.value;
    if e.run != h.run {
      return Ok(Stop(Corruption(RunMismatch)));
    }
    if e.sequence != |commands| + 1 {
      return Ok(Stop(Corruption(SequenceMismatch)));
    }
    if ExceedsCapacity(committed, e.totalLength, h.maxBytes) {
      return Ok(Stop(Corruption(ByteCapacityExceeded)));
    }
    var payload;
    payload, error := ReadExact(d, e.totalLength - ENVELOPE_SIZE);
    if error.Some? {
      return Err(error.value);
    }
    if |payload| != e.totalLength - ENVELOPE_SIZE {
      return Ok(Stop(IncompleteTail(h, commands, committed, ENVELOPE_SIZE + |payload|)));
    }
    var frame := envelope + payload;
    assert frame == d.bytes[committed..committed + e.totalLength];
    var decoded := DecodeCommand(frame, e.recordType);
    if decoded.Err? {
      return Ok(Stop(Corruption(CommandCorrupt(decoded.error))));
    }
    if !HasConfiguration(h, decoded.value.instrumentId, decoded.value.configuration) {
      return Ok(Stop(Corruption(ConfigurationMismatch)));
    }
    turn := Ok(More(decoded.value, e.totalLength));
  }
}
