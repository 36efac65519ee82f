/** Preparing an existing journal for further appends: validate it, set an incomplete tail aside, resume the writer. */
module JournalRecovery {
  import opened LittleEndian
  import opened Domain
  import opened HeaderCodec
  import opened CommandCodec
  import opened JournalFile
  import opened StorageFile
  import opened JournalReader
  import opened JournalWriter

  datatype RecoveryStage =
    | Reading
    | TailPreservation
    | Truncating
    | Synchronising
    | Seeking
    | Closing

  datatype RecoveryOutcome =
    | Prepared(preservedTail: seq<byte>, commands: seq<Command>)
    | CorruptJournal(error: LoadError)
    | Untouched(stage: RecoveryStage, systemError: nat)
    | RecoveryStillRequired(stage: RecoveryStage, systemError: nat, preservedTail: seq<byte>)

  const MAX_FILE_OFFSET: nat := 0x7FFF_FFFF_FFFF_FFFF
  const EOVERFLOW: nat := 75

  /** Both contents load, and as the same run. */
  ghost predicate SameRun(a: seq<byte>, b: seq<byte>) {
    && !Parse(a).Corruption? && !Parse(b).Corruption?
    && Parse(a).header == Parse(b).header && Parse(a).commands == Parse(b).commands
  }

  /** Fills a buffer of `size` bytes; the end of the file is an error here. */
  method ReadTail(file: Descriptor, size: nat) returns (data: seq<byte>, error: Option<nat>)
    requires file.Valid()
    modifies file`position, file`fates
    ensures file.Valid() && old(file.position) <= file.position && Onward(old(file.fates), file.fates)
    ensures error.None? ==> data == file.bytes[old(file.position)..file.position] && |data| == size
    ensures Healthy(old(file.fates)) && size <= |file.bytes| - old(file.position) ==> error.None?
  {
    data, error := [], None;
    while |data| < size
      invariant file.Valid() && old(file.position) <= file.position && |data| <= size
      invariant data == file.bytes[old(file.position)..file.position]
      invariant error.None? && Onward(old(file.fates), file.fates)
      decreases size - |data|, |file.fates|
    {
      var more, fate := file.ReadFile(size - |data|);
      match fate {
        case Moves(_) =>
          if more == [] {
            return data, Some(EIO);
          }
          data := data + more;
        case Interrupted =>
        case Fails(systemError) => return data, Some(systemError);
        case Misreports => return data, Some(EIO);
      }
    }
  }

  method CloseAfterFailure(file: Descriptor, truncationBegan: bool, stage: RecoveryStage, systemError: nat,
                           preservedTail: seq<byte>)
    returns (outcome: RecoveryOutcome)
    modifies file`fates
    ensures Onward(old(file.fates), file.fates)
    ensures if truncationBegan then outcome.RecoveryStillRequired? && outcome.preservedTail == preservedTail
            else outcome.Untouched?
    ensures Healthy(old(file.fates)) ==> outcome.systemError == systemError || outcome.systemError == EINTR
    ensures Healthy(old(file.fates)) && !truncationBegan ==>
              outcome == Untouched(stage, systemError) || outcome == Untouched(Closing, EINTR)
    ensures Healthy(old(file.fates)) && Uninterrupted(old(file.fates)) && !truncationBegan ==>
              outcome == Untouched(stage, systemError)
  {
    var fate := file.CloseFile();
    var last, error := stage, systemError;
    if !fate.Moves? {
      last, error := Closing, if fate.Fails? then fate.systemError else EINTR;
    }
    outcome := if truncationBegan then RecoveryStillRequired(last, error, preservedTail) else Untouched(last, error);
  }

  method Refuse(file: Descriptor, refusal: RecoveryOutcome) returns (outcome: RecoveryOutcome)
    modifies file`fates
    ensures outcome == refusal || outcome.Untouched?
    ensures Healthy(old(file.fates)) ==> outcome == refusal || outcome == Untouched(Closing, EINTR)
    ensures Healthy(old(file.fates)) && Uninterrupted(old(file.fates)) ==> outcome == refusal
  {
    var fate := file.CloseFile();
    outcome := if fate.Moves? then refusal else Untouched(Closing, if fate.Fails? then fate.systemError else EINTR);
  }

  /** Copies the tail, then cuts it off. Every content on the way loads as the same run. */
  method CutTail(file: Descriptor, committed: nat, tailLength: nat)
    returns (preservedTail: seq<byte>, failure: Option<RecoveryOutcome>)
    requires file.Valid() && Parse(file.bytes).IncompleteTail?
    requires committed == Parse(file.bytes).committed && tailLength == Parse(file.bytes).tailLength
    requires committed <= |file.bytes| && committed + tailLength == |file.bytes|
    modifies file
    ensures file.Valid() && old(file.images) <= file.images
    ensures forall i | old(|file.images|) <= i < |file.images| :: file.images[i] == old(file.bytes)[..committed]
    ensures failure.None? ==> file.bytes == old(file.bytes)[..committed] && file.bytes + preservedTail == old(file.bytes)
    ensures failure.Some? ==>
              || (failure.value.Untouched? && file.bytes == old(file.bytes))
              || (failure.value.RecoveryStillRequired?
                  && old(file.bytes) == old(file.bytes)[..committed] + failure.value.preservedTail
                  && (file.bytes == old(file.bytes) || file.bytes == old(file.bytes)[..committed]))
    ensures Onward(old(file.fates), file.fates)
    ensures Healthy(old(file.fates)) && failure.Some? ==>
              failure.value.RecoveryStillRequired? && failure.value.systemError == EINTR
    ensures Healthy(old(file.fates)) && Uninterrupted(old(file.fates)) ==> failure.None?
  {
    hide Parse, Healthy, Uninterrupted;
    preservedTail, failure := [], None;
    var error := Seek(file, committed);
    if error.Some? {
      var outcome := CloseAfterFailure(file, false, TailPreservation, error.value, []);
      return [], Some(outcome);
    }
    preservedTail, error := ReadTail(file, tailLength);
    if error.Some? {
      var outcome := CloseAfterFailure(file, false, TailPreservation, error.value, []);
      return [], Some(outcome);
    }
    assert file.bytes == file.bytes[..committed] + preservedTail;
    var fate := file.TruncateFile(committed);
    if !fate.Moves? {
      var outcome := CloseAfterFailure(file, true, Truncating, if fate.Fails? then fate.systemError else EINTR, preservedTail);
      return preservedTail, Some(outcome);
    }
    error := Sync(file);
    if error.Some? {
      var outcome := CloseAfterFailure(file, true, Synchronising, error.value, preservedTail);
      return preservedTail, Some(outcome);
    }
  }

  /** Why a journal that has been read cannot be prepared, if it cannot. */
  function Obstacle(r: Loaded, expectedRun: Option<u64>): Option<RecoveryOutcome> {
    if r.Corruption? then Some(CorruptJournal(r.error))
    else if expectedRun.Some? && r.header.run != expectedRun.value then Some(CorruptJournal(RunMismatch))
    else if r.committed > MAX_FILE_OFFSET then Some(Untouched(Seeking, EOVERFLOW))
    else None
  }

  /**
   * Whatever the file holds and the system calls do: a prepared journal has a writer that stands right behind the
   * commands that load, and the file together with the preserved tail is the original file; a journal that is not
   * prepared still loads as the same run, and is byte for byte unchanged unless truncation began. Short reads and
   * interrupts change nothing, except that truncating and closing are not retried when interrupted.
   */
  method Prepare(file: Descriptor, expectedRun: Option<u64>) returns (outcome: RecoveryOutcome, writer: Writer?)
    requires file.Valid() && file.position == 0
    modifies file
    ensures outcome.Prepared? <==> writer != null
    ensures outcome.Prepared? ==>
              && fresh(writer) && writer.Valid() && writer.usable && writer.file == file
              && !Parse(old(file.bytes)).Corruption?
              && writer.header == Parse(old(file.bytes)).header && writer.committed == Parse(old(file.bytes)).commands
              && outcome.commands == writer.committed
              && (expectedRun.Some? ==> writer.header.run == expectedRun.value)
              && file.bytes + outcome.preservedTail == old(file.bytes)
              && SameRun(old(file.bytes), file.bytes) && Parse(file.bytes).Intact?
    ensures outcome.CorruptJournal? || outcome.Untouched? ==> file.bytes == old(file.bytes)
    ensures outcome.CorruptJournal? ==>
              || Parse(old(file.bytes)).Corruption?
              || (expectedRun.Some? && Parse(old(file.bytes)).header.run != expectedRun.value)
    ensures outcome.RecoveryStillRequired? ==> SameRun(old(file.bytes), file.bytes)
    ensures old(file.images) <= file.images
    ensures forall i | old(|file.images|) <= i < |file.images| :: SameRun(old(file.bytes), file.images[i])
    ensures Healthy(old(file.fates)) ==>
              match Obstacle(Parse(old(file.bytes)), expectedRun)
              case Some(refusal) => outcome == refusal || outcome == Untouched(Closing, EINTR)
              case None =>
                || outcome.Prepared?
                || (&& Parse(old(file.bytes)).IncompleteTail? && !Uninterrupted(old(file.fates))
                    && outcome.RecoveryStillRequired? && outcome.systemError == EINTR)
    ensures Healthy(old(file.fates)) && Uninterrupted(old(file.fates)) ==>
              match Obstacle(Parse(old(file.bytes)), expectedRun)
              case Some(refusal) => outcome == refusal
              case None => outcome.Prepared?
  {
    hide Parse, Journal, Fits, Healthy, Uninterrupted;
    writer := null;
    var read := ReadJournal(file);
    if read.IoFailure? {
      outcome := Refuse(file, Untouched(Reading, read.systemError));
      return;
    }
    var loaded := read.loaded;
    if loaded.Corruption? {
      outcome := Refuse(file, CorruptJournal(loaded.error));
      return;
    }
    if expectedRun.Some? && loaded.header.run != expectedRun.value {
      outcome := Refuse(file, CorruptJournal(RunMismatch));
      return;
    }
    LoadedIsPrinted(file.bytes);
    if loaded.committed > MAX_FILE_OFFSET {
      outcome := CloseAfterFailure(file, false, Seeking, EOVERFLOW, []);
      return;
    }
    var tail: seq<byte> := [];
    if loaded.IncompleteTail? {
      TruncationRepairs(file.bytes);
      var failure;
      tail, failure := CutTail(file, loaded.committed, loaded.tailLength);
      if failure.Some? {
        outcome := failure.value;
        return;
      }
    }
    assert file.bytes == old(file.bytes)[..loaded.committed] && file.bytes + tail == old(file.bytes);
    var error := Seek(file, loaded.committed);
    if error.Some? {
      outcome := CloseAfterFailure(file, loaded.IncompleteTail?, Seeking, error.value, tail);
      return;
    }
    CountsFit(loaded.header, loaded.commands);
    IntactIff(file.bytes, loaded.header, loaded.commands);
    writer := new Writer(file, loaded.header, loaded.commands, |loaded.commands|, loaded.committed);
    outcome := Prepared(tail, loaded.commands);
  }

  lemma CountsFit(h: Header, commands: seq<Command>)
    requires Fits(h, commands)
    ensures |commands| < U64_LIMIT && |Journal(h, commands)| < U64_LIMIT
  {
    hide Journal;
    JournalOutgrowsCount(h, commands);
  }
}
