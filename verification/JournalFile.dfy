/**
 * A journal file as a value: what the reader makes of any byte string (`Parse`), what a writer prints (`Journal`),
 * and how the two relate for intact, torn and damaged files.
 */
module JournalFile {
  import opened LittleEndian
  import opened Crc32c
  import opened Domain
  import opened JournalFrame
  import opened CommandCodec
  import opened HeaderCodec

  datatype LoadError =
    | HeaderCorrupt(headerError: HeaderError)
    | CommandCorrupt(commandError: CommandError)
    | ByteCapacityExceeded
    | CommandCapacityExceeded
    | RunMismatch
    | ConfigurationMismatch
    | SequenceMismatch

  datatype Loaded =
    | Intact(header: Header, commands: seq<Command>, committed: nat)
    | IncompleteTail(header: Header, commands: seq<Command>, committed: nat, tailLength: nat)
    | Corruption(error: LoadError)

  /** First position whose identifier is not below `id`, as a sorted lookup finds it. */
  function LowerBound(instruments: seq<Instrument>, id: u64): (k: nat)
    ensures k <= |instruments|
  {
    if instruments == [] || instruments[0].id >= id then 0 else 1 + LowerBound(instruments[1..], id)
  }

  predicate HasConfiguration(h: Header, id: u64, configuration: u32) {
    var k := LowerBound(h.instruments, id);
    k < |h.instruments| && h.instruments[k] == Instrument(id, configuration)
  }

  lemma {:induction false} LowerBoundFinds(instruments: seq<Instrument>, id: u64)
    requires forall j, k | 0 <= j < k < |instruments| :: instruments[j].id < instruments[k].id
    ensures forall k | 0 <= k < |instruments| && instruments[k].id == id :: k == LowerBound(instruments, id)
    ensures LowerBound(instruments, id) < |instruments| ==> instruments[LowerBound(instruments, id)].id >= id
    decreases |instruments|
  {
    if instruments != [] && instruments[0].id < id {
      LowerBoundFinds(instruments[1..], id);
    }
  }

  /** The sorted lookup finds exactly the configurations the header lists. */
  lemma ListedIffConfigured(h: Header, id: u64, configuration: u32)
    requires WellFormed(h)
    ensures HasConfiguration(h, id, configuration) <==> Instrument(id, configuration) in h.instruments
  {
    LowerBoundFinds(h.instruments, id);
  }

  predicate ExceedsCapacity(current: nat, additional: nat, maximum: nat) {
    current > maximum || additional > maximum - current
  }

  // ----- The reader, as a function of the whole file

  /** One turn of the reading loop: stop with a verdict, or take one more command and its length. */
  datatype Turn = Stop(loaded: Loaded) | More(command: Command, length: nat)

  function ParseOne(h: Header, file: seq<byte>, position: nat, commands: seq<Command>): (turn: Turn)
    requires position <= |file|
    ensures turn.More? ==> 0 < turn.length <= |file| - position
  {
    var available := |file| - position;
    if available == 0 then Stop(Intact(h, commands, position))
    else if |commands| >= h.maxCommands then Stop(Corruption(CommandCapacityExceeded))
    else if available < ENVELOPE_SIZE then
      if ExceedsCapacity(position, available, h.maxBytes) then Stop(Corruption(ByteCapacityExceeded))
      else Stop(IncompleteTail(h, commands, position, available))
    else
      var checked := ValidateCommandEnvelope(file[position..position + ENVELOPE_SIZE], 0, false);
      if checked.Err? then Stop(Corruption(CommandCorrupt(checked.error)))
      else
        var envelope := checked.value;
        if envelope.run != h.run then Stop(Corruption(RunMismatch))
        else if envelope.sequence != |commands| + 1 then Stop(Corruption(SequenceMismatch))
        else if ExceedsCapacity(position, envelope.totalLength, h.maxBytes) then
          Stop(Corruption(ByteCapacityExceeded))
        else if available < envelope.totalLength then Stop(IncompleteTail(h, commands, position, available))
        else
          var decoded := DecodeCommand(file[position..position + envelope.totalLength], envelope.recordType);
          if decoded.Err? then Stop(Corruption(CommandCorrupt(decoded.error)))
          else if !HasConfiguration(h, decoded.value.instrumentId, decoded.value.configuration) then
            Stop(Corruption(ConfigurationMismatch))
          else More(decoded.value, envelope.totalLength)
  }

  function ParseCommands(h: Header, file: seq<byte>, position: nat, commands: seq<Command>): Loaded
    requires position <= |file|
    decreases |file| - position
  {
    match ParseOne(h, file, position, commands)
    case Stop(loaded) => loaded
    case More(command, length) => ParseCommands(h, file, position + length, commands + [command])
  }

  function Parse(file: seq<byte>): Loaded {
    if |file| < ENVELOPE_SIZE then Corruption(HeaderCorrupt(HeaderTruncated))
    else
      var headerLength := Field(file, 8, 4);
      if headerLength < ENVELOPE_SIZE then Corruption(HeaderCorrupt(HeaderInvalidTotalLength))
      else if headerLength > RUN_HEADER_MAX_FRAME_SIZE then Corruption(HeaderCorrupt(HeaderTooLarge))
      else if |file| < headerLength then Corruption(HeaderCorrupt(HeaderTruncated))
      else
        var decoded := DecodeHeader(file[..headerLength]);
        if decoded.Err? then Corruption(HeaderCorrupt(decoded.error))
        else ParseCommands(decoded.value, file, headerLength, [])
  }

  // ----- The writer, as a function of what it committed

  function Frames(commands: seq<Command>): seq<byte> {
    if commands == [] then [] else Frames(commands[..|commands| - 1]) + FrameOf(commands[|commands| - 1])
  }

  function Journal(h: Header, commands: seq<Command>): seq<byte> {
    HeaderFrame(h) + Frames(commands)
  }

  ghost predicate InContext(h: Header, c: Command, sequence: nat) {
    && Encodable(c) && c.run == h.run && c.sequence == sequence
    && HasConfiguration(h, c.instrumentId, c.configuration)
  }

  /** The command lists a journal with this header may hold. */
  ghost predicate Fits(h: Header, commands: seq<Command>) {
    && WellFormed(h)
    && |commands| <= h.maxCommands
    && |Journal(h, commands)| <= h.maxBytes
    && (forall k | 0 <= k < |commands| :: InContext(h, commands[k], k + 1))
  }

  // ----- One intact, torn or damaged frame

  /** The envelope alone tells a reader the length of the frame it starts. */
  lemma EnvelopeOfPrefix(c: Command, head: seq<byte>)
    requires Encodable(c) && head == FrameOf(c)[..ENVELOPE_SIZE]
    ensures ValidateCommandEnvelope(head, 0, false) ==
            Ok(Envelope(RecordType(c), |FrameOf(c)|, c.run, c.sequence, |Payload(c)|))
  {
    hide Frame, Payload, Field;
    PayloadSize(c);
    FrameFields(RecordType(c), c.run, c.sequence, Payload(c));
    var frame := FrameOf(c);
    assert frame[..CHECKSUM_OFFSET] == head[..CHECKSUM_OFFSET];
    FieldsOfPrefix(frame, frame[..CHECKSUM_OFFSET]);
    FieldsOfPrefix(head, frame[..CHECKSUM_OFFSET]);
  }

  lemma JournalSnoc(h: Header, commands: seq<Command>, c: Command)
    ensures Journal(h, commands + [c]) == Journal(h, commands) + FrameOf(c)
  {
    assert (commands + [c])[..|commands|] == commands;
  }

  lemma LastInContext(h: Header, commands: seq<Command>, c: Command)
    requires Fits(h, commands + [c])
    ensures InContext(h, c, |commands| + 1) && |commands| < h.maxCommands
    ensures |Journal(h, commands)| + |FrameOf(c)| <= h.maxBytes
    ensures ENVELOPE_SIZE < |FrameOf(c)| <= COMMAND_MAX_FRAME_SIZE
  {
    JournalSnoc(h, commands, c);
    PayloadSize(c);
    hide Journal, FrameOf;
    assert InContext(h, (commands + [c])[|commands|], |commands| + 1);
  }

  /** An intact frame in context is consumed whole. */
  lemma ParseFrame(h: Header, commands: seq<Command>, c: Command, file: seq<byte>)
    requires Fits(h, commands + [c])
    requires |Journal(h, commands + [c])| <= |file| && file[..|Journal(h, commands + [c])|] == Journal(h, commands + [c])
    ensures |Journal(h, commands)| <= |file|
    ensures ParseOne(h, file, |Journal(h, commands)|, commands) == More(c, |FrameOf(c)|)
    ensures ParseCommands(h, file, |Journal(h, commands)|, commands) ==
            ParseCommands(h, file, |Journal(h, commands + [c])|, commands + [c])
  {
    hide Journal, FrameOf, ValidateCommandEnvelope, DecodeCommand, HasConfiguration, Encodable, Fits;
    LastInContext(h, commands, c);
    JournalSnoc(h, commands, c);
    var position, frame := |Journal(h, commands)|, FrameOf(c);
    SliceOfPrefix(file, Journal(h, commands), frame);
    assert file[position..position + ENVELOPE_SIZE] == frame[..ENVELOPE_SIZE];
    EnvelopeOfPrefix(c, frame[..ENVELOPE_SIZE]);
    DecodeOfEncode(c);
    assert ParseOne(h, file, position, commands) == More(c, |frame|);
    hide ParseOne;
  }

  lemma SliceOfPrefix(file: seq<byte>, front: seq<byte>, frame: seq<byte>)
    requires |front + frame| <= |file| && file[..|front + frame|] == front + frame
    ensures file[|front|..|front| + |frame|] == frame
    ensures forall k | 0 <= k <= |frame| :: file[|front|..|front| + k] == frame[..k]
  {
    assert file[|front|..|front| + |frame|] == (front + frame)[|front|..];
    forall k | 0 <= k <= |frame|
      ensures file[|front|..|front| + k] == frame[..k]
    {
      SliceOfSlice(file, |front|, k, |frame|);
    }
  }

  lemma SliceOfSlice(file: seq<byte>, from: nat, k: nat, length: nat)
    requires k <= length && from + length <= |file|
    ensures file[from..from + length][..k] == file[from..from + k]
  {
  }

  /** A strict prefix of a frame is an incomplete tail at the committed offset, never anything else. */
  lemma ParseTorn(h: Header, commands: seq<Command>, c: Command, k: nat)
    requires Fits(h, commands + [c]) && 0 < k < |FrameOf(c)|
    ensures ParseCommands(h, Journal(h, commands) + FrameOf(c)[..k], |Journal(h, commands)|, commands) ==
            IncompleteTail(h, commands, |Journal(h, commands)|, k)
  {
    hide Journal, FrameOf, ValidateCommandEnvelope, DecodeCommand, HasConfiguration, Encodable, Fits;
    LastInContext(h, commands, c);
    var position, frame := |Journal(h, commands)|, FrameOf(c);
    var file := Journal(h, commands) + frame[..k];
    if k >= ENVELOPE_SIZE {
      assert file[position..position + ENVELOPE_SIZE] == frame[..ENVELOPE_SIZE];
      EnvelopeOfPrefix(c, frame[..ENVELOPE_SIZE]);
    }
  }

  // ----- Parsing undoes printing

  lemma FitsFront(h: Header, commands: seq<Command>)
    requires Fits(h, commands) && commands != []
    ensures Fits(h, commands[..|commands| - 1])
    ensures Journal(h, commands) == Journal(h, commands[..|commands| - 1]) + FrameOf(commands[|commands| - 1])
  {
    hide Journal, FrameOf, WellFormed, InContext;
    var front := commands[..|commands| - 1];
    assert commands == front + [commands[|commands| - 1]];
    JournalSnoc(h, front, commands[|commands| - 1]);
    forall k | 0 <= k < |front|
      ensures InContext(h, front[k], k + 1)
    {
      assert front[k] == commands[k];
    }
  }

  lemma {:induction false} FitsPrefix(h: Header, commands: seq<Command>, k: nat)
    requires Fits(h, commands) && k <= |commands|
    ensures Fits(h, commands[..k])
    ensures |Journal(h, commands[..k])| <= |Journal(h, commands)|
    ensures Journal(h, commands)[..|Journal(h, commands[..k])|] == Journal(h, commands[..k])
    decreases |commands|
  {
    hide Journal, FrameOf, Fits;
    if k == |commands| {
      assert commands[..k] == commands;
    } else {
      var front := commands[..|commands| - 1];
      FitsFront(h, commands);
      FitsPrefix(h, front, k);
      assert front[..k] == commands[..k];
    }
  }

  /** A file that begins with an intact journal is read up to that point without complaint. */
  lemma {:induction false} ParsePrefix(h: Header, commands: seq<Command>, k: nat, file: seq<byte>)
    requires Fits(h, commands) && k <= |commands|
    requires |Journal(h, commands)| <= |file| && file[..|Journal(h, commands)|] == Journal(h, commands)
    ensures |Journal(h, commands[..k])| <= |file|
    ensures ParseCommands(h, file, |Journal(h, commands[..k])|, commands[..k]) ==
            ParseCommands(h, file, |Journal(h, commands)|, commands)
    decreases |commands| - k
  {
    hide Journal, Fits, ParseCommands;
    FitsPrefix(h, commands, k);
    if k == |commands| {
      assert commands[..k] == commands;
    } else {
      ParsePrefix(h, commands, k + 1, file);
      FitsPrefix(h, commands, k + 1);
      assert commands[..k + 1] == commands[..k] + [commands[k]];
      var next := Journal(h, commands[..k + 1]);
      assert file[..|next|] == file[..|Journal(h, commands)|][..|next|];
      ParseFrame(h, commands[..k], commands[k], file);
    }
  }

  lemma ParseHeader(h: Header, file: seq<byte>)
    requires WellFormed(h) && |HeaderFrame(h)| <= |file| && file[..|HeaderFrame(h)|] == HeaderFrame(h)
    ensures Parse(file) == ParseCommands(h, file, |HeaderFrame(h)|, [])
  {
    hide DecodeHeader, ParseCommands, HeaderFrame, Field;
    SmallCount(h);
    HeaderDecodeOfEncode(h);
    HeaderLength(h);
    FieldOfLonger(file, HeaderFrame(h), 8, 4);
  }

  lemma HeaderLength(h: Header)
    requires WellFormed(h)
    ensures ENVELOPE_SIZE <= |HeaderFrame(h)| <= RUN_HEADER_MAX_FRAME_SIZE
    ensures Field(HeaderFrame(h), 8, 4) == |HeaderFrame(h)|
    ensures Field(HeaderFrame(h), 28, 4) == |HeaderFrame(h)| - ENVELOPE_SIZE
    ensures Field(HeaderFrame(h), 32, 4) == FrameChecksum(HeaderFrame(h))
  {
    SmallCount(h);
    FrameFields(RUN_HEADER_RECORD_TYPE, h.run, 0, FixedPart(h) + EncodeEntries(h.instruments));
    hide Frame, FixedPart, EncodeEntries, Field, FrameChecksum;
  }

  lemma FieldOfLonger(file: seq<byte>, front: seq<byte>, offset: nat, width: nat)
    requires offset + width <= |front| <= |file| && file[..|front|] == front
    ensures Field(file, offset, width) == Field(front, offset, width)
  {
    hide Decode;
    var a, b := file[offset..offset + width], front[offset..offset + width];
    forall i | 0 <= i < width
      ensures a[i] == b[i]
    {
      assert a[i] == file[offset + i] == file[..|front|][offset + i];
    }
    assert a == b;
  }

  lemma JournalOfNone(h: Header)
    ensures Journal(h, []) == HeaderFrame(h)
  {
  }

  lemma FitsHeader(h: Header, commands: seq<Command>)
    requires Fits(h, commands)
    ensures WellFormed(h)
  {
  }

  /** Loading a file that begins with a journal continues after its last command. */
  lemma ParseJournal(h: Header, commands: seq<Command>, file: seq<byte>)
    requires Fits(h, commands)
    requires |Journal(h, commands)| <= |file| && file[..|Journal(h, commands)|] == Journal(h, commands)
    ensures Parse(file) == ParseCommands(h, file, |Journal(h, commands)|, commands)
  {
    hide Journal, Fits, Parse, ParseCommands, HeaderFrame;
    ParsePrefix(h, commands, 0, file);
    FitsPrefix(h, commands, 0);
    assert commands[..0] == [];
    JournalOfNone(h);
    assert WellFormed(h) by { FitsHeader(h, commands); }
    var front := HeaderFrame(h);
    assert file[..|front|] == front by {
      assert file[..|front|] == file[..|Journal(h, commands)|][..|front|];
    }
    ParseHeader(h, file);
  }

  /** What a successful parse says about the rest of the file. */
  lemma {:induction false} ParsedIsPrinted(h: Header, file: seq<byte>, position: nat, commands: seq<Command>)
    requires position <= |file| && Fits(h, commands) && file[..position] == Journal(h, commands)
    requires ParseCommands(h, file, position, commands).Intact? || ParseCommands(h, file, position, commands).IncompleteTail?
    ensures var r := ParseCommands(h, file, position, commands);
            && r.header == h && Fits(h, r.commands)
            && r.committed <= |file| && file[..r.committed] == Journal(h, r.commands)
            && (r.Intact? ==> r.committed == |file|)
            && (r.IncompleteTail? ==> 0 < r.tailLength == |file| - r.committed)
    decreases |file| - position
  {
    hide Journal, Fits, ParseOne;
    var turn := ParseOne(h, file, position, commands);
    if turn.More? {
      DecodedInContext(h, file, position, commands);
      ParsedIsPrinted(h, file, position + turn.length, commands + [turn.command]);
    } else {
      StopsHere(h, file, position, commands);
    }
  }

  lemma StopsHere(h: Header, file: seq<byte>, position: nat, commands: seq<Command>)
    requires position <= |file| && ParseOne(h, file, position, commands).Stop?
    ensures var r := ParseOne(h, file, position, commands).loaded;
            && (r.Intact? ==> r == Intact(h, commands, position) && position == |file|)
            && (r.IncompleteTail? ==> r == IncompleteTail(h, commands, position, |file| - position) && position < |file|)
  {
    hide ValidateCommandEnvelope, DecodeCommand, HasConfiguration;
  }

  lemma DecodedInContext(h: Header, file: seq<byte>, position: nat, commands: seq<Command>)
    requires position <= |file| && Fits(h, commands) && file[..position] == Journal(h, commands)
    requires ParseOne(h, file, position, commands).More?
    ensures var turn := ParseOne(h, file, position, commands);
            && position + turn.length <= |file|
            && file[..position + turn.length] == Journal(h, commands + [turn.command])
            && Fits(h, commands + [turn.command])
  {
    hide ParseOne, FrameOf, Journal, WellFormed, InContext;
    var turn := ParseOne(h, file, position, commands);
    var c, length := turn.command, turn.length;
    MoreMeans(h, file, position, commands);
    JournalSnoc(h, commands, c);
    assert file[..position + length] == file[..position] + file[position..position + length];
    forall k | 0 <= k < |commands + [c]|
      ensures InContext(h, (commands + [c])[k], k + 1)
    {
      assert k < |commands| ==> (commands + [c])[k] == commands[k];
    }
  }

  lemma MoreMeans(h: Header, file: seq<byte>, position: nat, commands: seq<Command>)
    requires position <= |file| && ParseOne(h, file, position, commands).More?
    ensures var turn := ParseOne(h, file, position, commands);
            && position + turn.length <= |file|
            && FrameOf(turn.command) == file[position..position + turn.length]
            && InContext(h, turn.command, |commands| + 1)
            && |commands| < h.maxCommands && position + turn.length <= h.maxBytes
  {
    hide ValidateCommandEnvelope, DecodeCommand, FrameOf, Field, HasConfiguration, Encodable;
    var head := file[position..position + ENVELOPE_SIZE];
    var envelope := ValidateCommandEnvelope(head, 0, false).value;
    var frame := file[position..position + envelope.totalLength];
    EnvelopeFields(head);
    SameIdentity(file, position, envelope.totalLength);
    EncodeOfDecode(frame, envelope.recordType);
    FrameIdentity(DecodeCommand(frame, envelope.recordType).value);
  }

  lemma FrameIdentity(c: Command)
    ensures ENVELOPE_SIZE <= |FrameOf(c)| <= COMMAND_MAX_FRAME_SIZE
    ensures Field(FrameOf(c), 12, 8) == c.run && Field(FrameOf(c), 20, 8) == c.sequence
    ensures Field(FrameOf(c), 8, 4) == |FrameOf(c)| && Field(FrameOf(c), 28, 4) == |FrameOf(c)| - ENVELOPE_SIZE
    ensures Field(FrameOf(c), 32, 4) == FrameChecksum(FrameOf(c))
  {
    PayloadSize(c);
    FrameFields(RecordType(c), c.run, c.sequence, Payload(c));
    hide Frame, Payload, Field, FrameChecksum;
  }

  lemma EnvelopeFields(head: seq<byte>)
    requires ValidateCommandEnvelope(head, 0, false).Ok?
    ensures |head| >= ENVELOPE_SIZE
    ensures var e := ValidateCommandEnvelope(head, 0, false).value;
            && (e.recordType == NEW_ORDER_RECORD_TYPE || e.recordType == CANCEL_RECORD_TYPE)
            && e.recordType == Field(head, 6, 2) && e.totalLength == Field(head, 8, 4)
            && e.run == Field(head, 12, 8) && e.sequence == Field(head, 20, 8)
            && e.payloadLength == Field(head, 28, 4) && e.totalLength == ENVELOPE_SIZE + e.payloadLength
  {
    hide Field, FrameChecksum;
  }

  /** The fields checked on the envelope are those of the frame it starts. */
  lemma SameIdentity(file: seq<byte>, position: nat, length: nat)
    requires ENVELOPE_SIZE <= length && position + length <= |file|
    ensures var head, frame := file[position..position + ENVELOPE_SIZE], file[position..position + length];
            && Field(head, 6, 2) == Field(frame, 6, 2) && Field(head, 8, 4) == Field(frame, 8, 4)
            && Field(head, 12, 8) == Field(frame, 12, 8) && Field(head, 20, 8) == Field(frame, 20, 8)
            && Field(head, 28, 4) == Field(frame, 28, 4)
  {
    var head, frame := file[position..position + ENVELOPE_SIZE], file[position..position + length];
    assert head[..CHECKSUM_OFFSET] == frame[..CHECKSUM_OFFSET];
    FieldsOfPrefix(head, head[..CHECKSUM_OFFSET]);
    FieldsOfPrefix(frame, head[..CHECKSUM_OFFSET]);
  }

  /** Whatever loads, intact or torn, starts with the printed form of what was loaded. */
  lemma LoadedIsPrinted(file: seq<byte>)
    requires !Parse(file).Corruption?
    ensures var r := Parse(file);
            && Fits(r.header, r.commands)
            && r.committed <= |file| && file[..r.committed] == Journal(r.header, r.commands)
            && (r.Intact? ==> r.committed == |file|)
            && (r.IncompleteTail? ==> 0 < r.tailLength == |file| - r.committed)
  {
    hide Field, DecodeHeader, ParseCommands, Journal;
    var headerLength := Field(file, 8, 4);
    var h := DecodeHeader(file[..headerLength]).value;
    HeaderEncodeOfDecode(file[..headerLength]);
    JournalOfNone(h);
    assert Fits(h, []);
    hide Fits, Parse;
    ParsedIsPrinted(h, file, headerLength, []);
  }

  /**
   * Parser and printer undo each other: a file is intact exactly when it is the journal of a command list in context
   * and within both capacities, and then it loads as that list.
   */
  lemma IntactIff(file: seq<byte>, h: Header, commands: seq<Command>)
    ensures Parse(file) == Intact(h, commands, |file|) <==> Fits(h, commands) && file == Journal(h, commands)
  {
    hide Parse, Fits, Journal;
    if Parse(file) == Intact(h, commands, |file|) {
      LoadedIsPrinted(file);
      assert file[..|file|] == file;
    }
    if Fits(h, commands) && file == Journal(h, commands) {
      assert file[..|Journal(h, commands)|] == Journal(h, commands);
      ParseJournal(h, commands, file);
      EndsHere(h, file, commands);
    }
  }

  lemma EndsHere(h: Header, file: seq<byte>, commands: seq<Command>)
    ensures ParseCommands(h, file, |file|, commands) == Intact(h, commands, |file|)
  {
  }

  /**
   * What may stand behind a journal of `count` commands and be taken for a frame cut short: less than an envelope, or an
   * envelope in order for the next command that announces more than there is. Neither may exceed the byte limit.
   */
  ghost predicate Torn(h: Header, count: nat, committed: nat, tail: seq<byte>) {
    && tail != [] && count < h.maxCommands
    && if |tail| < ENVELOPE_SIZE then committed + |tail| <= h.maxBytes
       else
         var envelope := ValidateCommandEnvelope(tail[..ENVELOPE_SIZE], 0, false);
         && envelope.Ok? && envelope.value.run == h.run && envelope.value.sequence == count + 1
         && |tail| < envelope.value.totalLength && committed + envelope.value.totalLength <= h.maxBytes
  }

  lemma TornStops(h: Header, file: seq<byte>, position: nat, commands: seq<Command>)
    requires position <= |file|
    ensures ParseOne(h, file, position, commands) == Stop(IncompleteTail(h, commands, position, |file| - position)) <==>
            Torn(h, |commands|, position, file[position..])
  {
    hide ValidateCommandEnvelope, DecodeCommand, HasConfiguration;
    if |file| - position >= ENVELOPE_SIZE {
      assert file[position..][..ENVELOPE_SIZE] == file[position..position + ENVELOPE_SIZE];
    }
  }

  /** Parsing never forgets a command. */
  lemma {:induction false} ParseGrows(h: Header, file: seq<byte>, position: nat, commands: seq<Command>)
    requires position <= |file| && !ParseCommands(h, file, position, commands).Corruption?
    ensures var r := ParseCommands(h, file, position, commands);
            && |commands| <= |r.commands|
            && (ParseOne(h, file, position, commands).More? ==> |commands| < |r.commands|)
    decreases |file| - position
  {
    hide ParseOne;
    var turn := ParseOne(h, file, position, commands);
    if turn.Stop? {
      StopsHere(h, file, position, commands);
    } else {
      ParseGrows(h, file, position + turn.length, commands + [turn.command]);
    }
  }

  /**
   * A file is taken for a torn journal exactly when it is a journal with such a tail behind it. Together with `IntactIff`
   * this leaves corruption for everything else.
   */
  lemma TailIff(file: seq<byte>, h: Header, commands: seq<Command>)
    ensures var committed := |Journal(h, commands)|;
            (exists length :: Parse(file) == IncompleteTail(h, commands, committed, length)) <==>
            && Fits(h, commands) && committed <= |file| && file[..committed] == Journal(h, commands)
            && Torn(h, |commands|, committed, file[committed..])
    ensures Parse(file).IncompleteTail? ==> Parse(file).committed == |Journal(Parse(file).header, Parse(file).commands)|
  {
    hide Parse, Fits, Journal, ParseOne, ParseCommands, Torn;
    var committed := |Journal(h, commands)|;
    if Parse(file).IncompleteTail? {
      LoadedIsPrinted(file);
    }
    if exists length :: Parse(file) == IncompleteTail(h, commands, committed, length) {
      ParseJournal(h, commands, file);
      ParseGrows(h, file, committed, commands);
      ParseTurn(h, file, committed, commands);
      TornStops(h, file, committed, commands);
    }
    if Fits(h, commands) && committed <= |file| && file[..committed] == Journal(h, commands)
       && Torn(h, |commands|, committed, file[committed..])
    {
      ParseJournal(h, commands, file);
      ParseTurn(h, file, committed, commands);
      TornStops(h, file, committed, commands);
      assert Parse(file) == IncompleteTail(h, commands, committed, |file| - committed);
    }
  }

  lemma ParseTurn(h: Header, file: seq<byte>, position: nat, commands: seq<Command>)
    requires position <= |file|
    ensures ParseOne(h, file, position, commands).Stop? ==>
              ParseCommands(h, file, position, commands) == ParseOne(h, file, position, commands).loaded
  {
    hide ParseOne;
  }

  /** The same file never loads as two different journals. */
  lemma JournalInjective(h: Header, commands: seq<Command>, h': Header, commands': seq<Command>)
    requires Fits(h, commands) && Fits(h', commands') && Journal(h, commands) == Journal(h', commands')
    ensures h == h' && commands == commands'
  {
    IntactIff(Journal(h, commands), h, commands);
    IntactIff(Journal(h, commands), h', commands');
  }

  // ----- Crash consistency

  /**
   * A crash while a frame is being written leaves any prefix of it behind the committed journal. The file then loads
   * as the committed commands, as those plus the complete frame, or as an incomplete tail at the committed offset.
   */
  lemma CrashConsistency(h: Header, commands: seq<Command>, c: Command, k: nat)
    requires Fits(h, commands + [c]) && k <= |FrameOf(c)|
    ensures var committed := |Journal(h, commands)|;
            Parse(Journal(h, commands) + FrameOf(c)[..k]) ==
            if k == 0 then Intact(h, commands, committed)
            else if k == |FrameOf(c)| then Intact(h, commands + [c], committed + |FrameOf(c)|)
            else IncompleteTail(h, commands, committed, k)
  {
    hide Journal, FrameOf, Fits, Parse, ParseCommands;
    JournalSnoc(h, commands, c);
    LastInContext(h, commands, c);
    FitsPrefix(h, commands + [c], |commands|);
    assert (commands + [c])[..|commands|] == commands;
    var file := Journal(h, commands) + FrameOf(c)[..k];
    assert file[..|Journal(h, commands)|] == Journal(h, commands);
    ParseJournal(h, commands, file);
    if k == |FrameOf(c)| {
      assert file == Journal(h, commands + [c]);
      IntactIff(file, h, commands + [c]);
    } else if k == 0 {
      assert file == Journal(h, commands);
      EndsHere(h, file, commands);
    } else {
      ParseTorn(h, commands, c, k);
    }
  }

  /** Cutting a torn file at the reported offset leaves an intact journal of the commands that loaded. */
  lemma TruncationRepairs(file: seq<byte>)
    requires Parse(file).IncompleteTail?
    ensures var r := Parse(file);
            r.committed <= |file| && Parse(file[..r.committed]) == Intact(r.header, r.commands, r.committed)
  {
    hide Journal, Parse, Fits;
    LoadedIsPrinted(file);
    var r := Parse(file);
    IntactIff(file[..r.committed], r.header, r.commands);
  }

  // ----- One damaged byte

  /** A frame with one byte changed never carries the checksum of its contents. */
  lemma OneByteBreaksFrame(frame: seq<byte>, damaged: seq<byte>, k: nat)
    requires |frame| == |damaged| && ENVELOPE_SIZE <= |frame| && DifferOnlyAt(frame, damaged, k)
    requires Field(frame, 32, 4) == FrameChecksum(frame)
    ensures Field(damaged, 32, 4) != FrameChecksum(damaged)
  {
    hide Checksum, Decode;
    var covered, covered' := frame[..CHECKSUM_OFFSET] + frame[ENVELOPE_SIZE..],
                             damaged[..CHECKSUM_OFFSET] + damaged[ENVELOPE_SIZE..];
    if CHECKSUM_OFFSET <= k < ENVELOPE_SIZE {
      assert covered == covered';
      EncodeDecode(frame[32..36]);
      EncodeDecode(damaged[32..36]);
      assert frame[32..36][k - 32] != damaged[32..36][k - 32];
    } else {
      assert frame[32..36] == damaged[32..36];
      var at := if k < CHECKSUM_OFFSET then k else k - 4;
      assert covered'[at] == damaged[k] && covered[at] == frame[k];
      assert DifferOnlyAt(covered, covered', at);
      OneByteChangesChecksum(covered, covered');
    }
  }

  /** At most one of two separate fields can be affected by one damaged byte. */
  lemma FieldAwayFrom(frame: seq<byte>, damaged: seq<byte>, k: nat, offset: nat, width: nat)
    requires |frame| == |damaged| && offset + width <= |frame| && DifferOnlyAt(frame, damaged, k)
    requires !(offset <= k < offset + width)
    ensures Field(damaged, offset, width) == Field(frame, offset, width)
  {
    assert damaged[offset..offset + width] == frame[offset..offset + width];
  }

  /** A damaged frame whose two length fields still agree with each other has kept its length. */
  lemma LengthsStillAgree(frame: seq<byte>, damaged: seq<byte>, k: nat)
    requires |frame| == |damaged| && ENVELOPE_SIZE <= |frame| && DifferOnlyAt(frame, damaged, k)
    requires Field(frame, 8, 4) == |frame| && Field(frame, 28, 4) == |frame| - ENVELOPE_SIZE
    requires Field(damaged, 8, 4) == ENVELOPE_SIZE + Field(damaged, 28, 4)
    ensures Field(damaged, 8, 4) == |frame|
  {
    hide Field;
    if 8 <= k < 12 {
      FieldAwayFrom(frame, damaged, k, 28, 4);
    } else {
      FieldAwayFrom(frame, damaged, k, 8, 4);
    }
  }

  lemma DamagedHeader(h: Header, damaged: seq<byte>, k: nat, rest: seq<byte>)
    requires WellFormed(h) && |damaged| == |HeaderFrame(h)| && DifferOnlyAt(HeaderFrame(h), damaged, k)
    ensures Parse(damaged + rest).Corruption?
  {
    hide DecodeHeader, ParseCommands, HeaderFrame, Field, FrameChecksum;
    var file := damaged + rest;
    assert file[..|damaged|] == damaged;
    HeaderLength(h);
    FieldOfLonger(file, damaged, 8, 4);
    FieldOfLonger(file, damaged, 28, 4);
    var length := Field(file, 8, 4);
    if ENVELOPE_SIZE <= length <= |file| && DecodeHeader(file[..length]).Ok? {
      HeaderDecodedFields(file[..length]);
      FieldOfLonger(file, file[..length], 8, 4);
      FieldOfLonger(file, file[..length], 28, 4);
      LengthsStillAgree(HeaderFrame(h), damaged, k);
      OneByteBreaksFrame(HeaderFrame(h), damaged, k);
    }
  }

  lemma DamagedCommand(h: Header, commands: seq<Command>, c: Command, damaged: seq<byte>, k: nat, file: seq<byte>)
    requires Fits(h, commands + [c]) && |damaged| == |FrameOf(c)| && DifferOnlyAt(FrameOf(c), damaged, k)
    requires |Journal(h, commands)| + |damaged| <= |file|
    requires file[|Journal(h, commands)|..|Journal(h, commands)| + |damaged|] == damaged
    ensures ParseCommands(h, file, |Journal(h, commands)|, commands).Corruption?
  {
    hide Journal, Fits, FrameOf, ValidateCommandEnvelope, DecodeCommand, HasConfiguration, Field, FrameChecksum, ParseOne;
    var position := |Journal(h, commands)|;
    DamagedEnvelope(c, damaged, k, file, position);
    RoomForOne(h, commands, c);
    BadFrameStops(h, commands, file, position, |damaged|);
  }

  lemma RoomForOne(h: Header, commands: seq<Command>, c: Command)
    requires Fits(h, commands + [c])
    ensures |commands| < h.maxCommands
  {
    hide Journal, InContext;
  }

  /** A whole frame that does not decode, of the length its envelope announces, is corruption. */
  lemma BadFrameStops(h: Header, commands: seq<Command>, file: seq<byte>, position: nat, length: nat)
    requires position + ENVELOPE_SIZE <= |file| && position + length <= |file|
    requires var checked := ValidateCommandEnvelope(file[position..position + ENVELOPE_SIZE], 0, false);
             checked.Ok? ==>
               && (checked.value.recordType == NEW_ORDER_RECORD_TYPE || checked.value.recordType == CANCEL_RECORD_TYPE)
               && checked.value.totalLength == length
               && DecodeCommand(file[position..position + length], checked.value.recordType).Err?
    ensures var turn := ParseOne(h, file, position, commands);
            turn.Stop? && turn.loaded.Corruption?
  {
    hide ValidateCommandEnvelope, DecodeCommand, HasConfiguration;
  }

  /** Whatever the damage, the envelope is refused or it still has the length of the frame, which then does not decode. */
  lemma DamagedEnvelope(c: Command, damaged: seq<byte>, k: nat, file: seq<byte>, position: nat)
    requires |damaged| == |FrameOf(c)| && DifferOnlyAt(FrameOf(c), damaged, k)
    requires position + |damaged| <= |file| && file[position..position + |damaged|] == damaged
    ensures position + ENVELOPE_SIZE <= |file|
    ensures var checked := ValidateCommandEnvelope(file[position..position + ENVELOPE_SIZE], 0, false);
            checked.Ok? ==>
              && (checked.value.recordType == NEW_ORDER_RECORD_TYPE || checked.value.recordType == CANCEL_RECORD_TYPE)
              && checked.value.totalLength == |damaged|
              && DecodeCommand(damaged, checked.value.recordType).Err?
  {
    hide FrameOf, ValidateCommandEnvelope, DecodeCommand, Field, FrameChecksum;
    FrameIdentity(c);
    var head := file[position..position + ENVELOPE_SIZE];
    var checked := ValidateCommandEnvelope(head, 0, false);
    OneByteBreaksFrame(FrameOf(c), damaged, k);
    if checked.Ok? {
      EnvelopeFields(head);
      SameIdentity(file, position, |damaged|);
      LengthsStillAgree(FrameOf(c), damaged, k);
      if DecodeCommand(damaged, checked.value.recordType).Ok? {
        DecodedFields(damaged, checked.value.recordType);
        assert false;
      }
    }
  }

  /**
   * Damage to a single byte anywhere in a journal is always answered with corruption: the file is neither accepted nor
   * taken for a torn write whose tail could be cut off.
   */
  lemma OneDamagedByte(h: Header, commands: seq<Command>, damaged: seq<byte>, at: nat)
    requires Fits(h, commands) && |damaged| == |Journal(h, commands)| && DifferOnlyAt(Journal(h, commands), damaged, at)
    ensures Parse(damaged).Corruption?
  {
    hide Fits, Parse, ParseCommands, FrameOf, HeaderFrame, Frames;
    var journal := Journal(h, commands);
    var front := HeaderFrame(h);
    FitsHeader(h, commands);
    if at < |front| {
      var head := damaged[..|front|];
      assert DifferOnlyAt(front, head, at);
      assert damaged == head + damaged[|front|..];
      DamagedHeader(h, head, at, damaged[|front|..]);
    } else {
      var j := FrameHit(h, commands, at);
      DamageInFrame(h, commands, damaged, at, j);
    }
  }

  /** The command whose frame covers a byte position behind the header. */
  lemma {:induction false} FrameHit(h: Header, commands: seq<Command>, at: nat) returns (j: nat)
    requires |HeaderFrame(h)| <= at < |Journal(h, commands)|
    ensures j < |commands|
    ensures |Journal(h, commands[..j])| <= at < |Journal(h, commands[..j])| + |FrameOf(commands[j])|
    decreases |commands|
  {
    hide FrameOf, HeaderFrame;
    j := 0;
    if commands != [] {
      var front := commands[..|commands| - 1];
      if |Journal(h, front)| <= at {
        j := |front|;
      } else {
        j := FrameHit(h, front, at);
        assert front[..j] == commands[..j];
      }
    }
  }

  lemma DamageInFrame(h: Header, commands: seq<Command>, damaged: seq<byte>, at: nat, j: nat)
    requires Fits(h, commands) && |damaged| == |Journal(h, commands)| && DifferOnlyAt(Journal(h, commands), damaged, at)
    requires j < |commands|
    requires |Journal(h, commands[..j])| <= at < |Journal(h, commands[..j])| + |FrameOf(commands[j])|
    ensures Parse(damaged).Corruption?
  {
    hide Fits, Parse, ParseCommands, FrameOf, Journal;
    var before, c := commands[..j], commands[j];
    var prefix, frame := Journal(h, before), FrameOf(c);
    FitsPrefix(h, commands, j);
    FitsPrefix(h, commands, j + 1);
    assert commands[..j + 1] == before + [c];
    JournalSnoc(h, before, c);
    var journal := Journal(h, commands);
    assert journal[..|prefix| + |frame|] == prefix + frame;
    assert damaged[..|prefix|] == prefix by {
      assert journal[..|prefix|] == prefix;
    }
    var hit := damaged[|prefix|..|prefix| + |frame|];
    assert journal[|prefix|..|prefix| + |frame|] == frame;
    assert hit == frame[at - |prefix| := damaged[at]];
    assert DifferOnlyAt(frame, hit, at - |prefix|);
    ParseJournal(h, before, damaged);
    DamagedCommand(h, before, c, hit, at - |prefix|, damaged);
  }
}
