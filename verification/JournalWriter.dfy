/** Appending commands durably, and what any crash along the way leaves for the reader. */
module JournalWriter {
  import opened LittleEndian
  import opened Domain
  import opened JournalFrame
  import opened CommandCodec
  import opened CommandEncoder
  import opened HeaderCodec
  import opened JournalFile
  import opened StorageFile

  datatype AppendError =
    | UnexpectedSequence
    | RunIdMismatch
    | RulesVersionMismatch
    | InstrumentConfigurationMismatch
    | Codec(error: CommandError)

  datatype AppendOutcome =
    | Committed
    | InvalidCommand(reason: AppendError)
    | CapacityReached
    | IoFailure(systemError: nat)
    | RecoveryRequired(systemError: nat)

  /** A journal has a byte for every command and more, so its length bounds the next sequence number. */
  lemma {:induction false} JournalOutgrowsCount(h: Header, commands: seq<Command>)
    ensures |Journal(h, commands)| > |commands|
    decreases |commands|
  {
    hide HeaderFrame, FrameOf;
    if commands == [] {
    } else {
      var front, last := commands[..|commands| - 1], commands[|commands| - 1];
      JournalOutgrowsCount(h, front);
      assert |FrameOf(last)| > 0 by { FrameIdentity(last); }
    }
  }

  /** A command in context is refused by a journal that fits exactly when one of the two capacities is used up. */
  lemma FitsOneMore(h: Header, commands: seq<Command>, c: Command)
    requires Fits(h, commands) && InContext(h, c, |commands| + 1)
    ensures Fits(h, commands + [c]) <==>
            |commands| < h.maxCommands && |FrameOf(c)| <= h.maxBytes - |Journal(h, commands)|
  {
    hide Journal, FrameOf, InContext, WellFormed;
    JournalSnoc(h, commands, c);
    forall k | 0 <= k < |commands + [c]|
      ensures InContext(h, (commands + [c])[k], k + 1)
    {
      assert k < |commands| ==> (commands + [c])[k] == commands[k];
    }
  }

  lemma HeaderLeads(h: Header, commands: seq<Command>)
    ensures HeaderFrame(h) <= Journal(h, commands)
  {
    hide HeaderFrame, Frames;
  }

  lemma WithinBytes(h: Header, commands: seq<Command>)
    requires Fits(h, commands)
    ensures |Journal(h, commands)| <= h.maxBytes
  {
    hide Journal;
  }

  /** From one point of a file's history on, every content extends `low` and is part of `high`. */
  ghost predicate AllBetween(images: seq<seq<byte>>, from: nat, low: seq<byte>, high: seq<byte>) {
    && from <= |images|
    && (forall i | from <= i < |images| :: low <= images[i] <= high)
  }

  /** `image` holds the first `n` commands whole and nothing beyond a leading part of the next frame. */
  ghost predicate Within(image: seq<byte>, h: Header, commands: seq<Command>, n: nat) {
    && n <= |commands|
    && Journal(h, commands[..n]) <= image <= Journal(h, commands[..if n < |commands| then n + 1 else n])
  }

  /** From `from` on, content `from + j` of the file appeared when `marks[j]` commands were committed. */
  ghost predicate History(images: seq<seq<byte>>, from: nat, marks: seq<nat>, h: Header, commands: seq<Command>) {
    && |images| == from + |marks|
    && (forall j | 0 <= j < |marks| :: Within(images[from + j], h, commands, marks[j]))
    && (forall j, k | 0 <= j < k < |marks| :: marks[j] <= marks[k])
  }

  ghost predicate AllUpTo(marks: seq<nat>, most: nat) {
    forall j | 0 <= j < |marks| :: marks[j] <= most
  }

  /** The marks of one append: between what was committed before it and after it, ending with the latter. */
  ghost predicate Marked(marks: seq<nat>, before: seq<nat>, first: nat, last: nat) {
    && before <= marks
    && (forall j | |before| <= j < |marks| :: first <= marks[j] <= last)
    && (first < last ==> |before| < |marks| && marks[|marks| - 1] == last)
  }

  function Repeat(n: nat, count: nat): seq<nat> {
    seq(count, _ => n)
  }

  lemma WithinGrows(image: seq<byte>, h: Header, commands: seq<Command>, n: nat, c: Command)
    requires Within(image, h, commands, n)
    ensures Within(image, h, commands + [c], n)
  {
    hide Journal, FrameOf;
    var more := commands + [c];
    assert more[..n] == commands[..n];
    if n < |commands| {
      assert more[..n + 1] == commands[..n + 1];
    } else {
      assert commands[..n] == commands && more[..n + 1] == more;
      JournalSnoc(h, commands, c);
    }
  }

  lemma HistoryGrows(images: seq<seq<byte>>, from: nat, marks: seq<nat>, h: Header, commands: seq<Command>, c: Command)
    requires History(images, from, marks, h, commands)
    ensures History(images, from, marks, h, commands + [c])
  {
    hide Within;
    forall j | 0 <= j < |marks|
      ensures Within(images[from + j], h, commands + [c], marks[j])
    {
      WithinGrows(images[from + j], h, commands, marks[j], c);
    }
  }

  /** Contents that appeared with the same `n` commands committed. */
  lemma HistoryExtends(before: seq<seq<byte>>, after: seq<seq<byte>>, from: nat, marks: seq<nat>, h: Header,
                       commands: seq<Command>, n: nat)
    requires History(before, from, marks, h, commands) && AllUpTo(marks, n) && before <= after
    requires forall i | |before| <= i < |after| :: Within(after[i], h, commands, n)
    ensures var added := Repeat(n, |after| - |before|);
            && History(after, from, marks + added, h, commands) && AllUpTo(marks + added, n)
            && Marked(marks + added, marks, n, n)
  {
    hide Within;
    var added := Repeat(n, |after| - |before|);
    forall j | 0 <= j < |marks + added|
      ensures Within(after[from + j], h, commands, (marks + added)[j])
    {
      assert j < |marks| ==> after[from + j] == before[from + j];
    }
  }

  /** A command is acknowledged once the file is exactly the journal up to it. */
  lemma HistoryAcknowledges(images: seq<seq<byte>>, from: nat, marks: seq<nat>, h: Header, commands: seq<Command>,
                            known: nat, image: seq<byte>)
    requires History(images, from, marks, h, commands) && AllUpTo(marks, known) && known <= |commands|
    requires Within(image, h, commands, |commands|)
    ensures History(images + [image], from, marks + [|commands|], h, commands)
    ensures AllUpTo(marks + [|commands|], |commands|)
  {
    hide Within;
    HistoryExtends(images, images + [image], from, marks, h, commands, |commands|);
    assert Repeat(|commands|, 1) == [|commands|];
  }

  lemma MarkAcknowledged(marks: seq<nat>, before: seq<nat>, first: nat, last: nat)
    requires Marked(marks, before, first, first) && first < last
    ensures Marked(marks + [last], before, first, last)
  {
  }

  lemma WholeIsWithin(h: Header, commands: seq<Command>)
    ensures Within(Journal(h, commands), h, commands, |commands|)
  {
    hide Journal;
    assert commands[..|commands|] == commands;
  }

  /** While one frame is being written, every content is within the commands before it and the one after. */
  lemma WithinFrame(images: seq<seq<byte>>, from: nat, h: Header, commands: seq<Command>, c: Command)
    requires AllBetween(images, from, Journal(h, commands), Journal(h, commands + [c]))
    ensures forall i | from <= i < |images| :: Within(images[i], h, commands + [c], |commands|)
  {
    hide Journal;
    var more := commands + [c];
    assert more[..|commands|] == commands && more[..|commands| + 1] == more;
  }

  /** Writes a whole frame through short writes and interrupts. A failed write leaves a leading part of it behind. */
  method WriteAll(file: Descriptor, frame: seq<byte>) returns (failure: Option<AppendOutcome>)
    requires file.Valid() && file.position == |file.bytes|
    modifies file
    ensures file.Valid() && file.position == |file.bytes|
    ensures old(file.bytes) <= file.bytes <= old(file.bytes) + frame
    ensures failure.None? ==> file.bytes == old(file.bytes) + frame
    ensures failure.Some? ==> failure.value.IoFailure? || failure.value.RecoveryRequired?
    ensures failure.Some? && failure.value.RecoveryRequired? ==> file.bytes != old(file.bytes)
    ensures failure.Some? && failure.value.IoFailure? ==>
              file.bytes == old(file.bytes) || file.bytes == old(file.bytes) + frame
    ensures Onward(old(file.fates), file.fates)
    ensures Healthy(old(file.fates)) ==> failure.None?
    ensures old(file.images) <= file.images
    ensures AllBetween(file.images, old(|file.images|), old(file.bytes), old(file.bytes) + frame)
  {
    failure := None;
    var bytesWritten := 0;
    ghost var before := file.bytes;
    while bytesWritten < |frame|
      invariant file.Valid() && file.position == |file.bytes| && bytesWritten <= |frame|
      invariant file.bytes == before + frame[..bytesWritten]
      invariant old(file.images) <= file.images
      invariant forall i | old(|file.images|) <= i < |file.images| :: before <= file.images[i] <= before + frame
      invariant failure.None? && Onward(old(file.fates), file.fates)
      decreases |frame| - bytesWritten, |file.fates|
    {
      var rest := frame[bytesWritten..];
      assert file.bytes + rest == before + frame;
      var fate := file.WriteFile(rest);
      match fate {
        case Moves(count) =>
          if 0 < count {
            assert frame[..bytesWritten] + rest[..count] == frame[..bytesWritten + count];
            bytesWritten := bytesWritten + count;
          } else {
            return Some(if bytesWritten == 0 then IoFailure(EIO) else RecoveryRequired(EIO));
          }
        case Interrupted =>
        case Misreports =>
          return Some(if bytesWritten == 0 then IoFailure(EIO) else RecoveryRequired(EIO));
        case Fails(systemError) =>
          return Some(if bytesWritten == 0 then IoFailure(systemError) else RecoveryRequired(systemError));
      }
    }
  }

  /**
   * A crash at any byte of any append history: what is left is a leading part of the attempted journal that holds at
   * least the header. It loads as exactly those commands whose frames are complete, and anything after the last of
   * them is reported as an incomplete tail at that offset, never as corruption.
   */
  lemma CrashAnywhere(h: Header, attempted: seq<Command>, image: seq<byte>)
    requires Fits(h, attempted) && HeaderFrame(h) <= image <= Journal(h, attempted)
    ensures var r := Parse(image);
            && !r.Corruption? && r.header == h && r.commands <= attempted
            && r.committed == |Journal(h, r.commands)| <= |image|
            && (r.commands < attempted ==> |image| < |Journal(h, attempted[..|r.commands| + 1])|)
            && (r.Intact? <==> |image| == r.committed)
            && (r.IncompleteTail? ==> r.tailLength == |image| - r.committed)
  {
    hide Journal, Fits, Parse, HeaderFrame, FrameOf;
    if image == Journal(h, attempted) {
      IntactIff(image, h, attempted);
    } else {
      ShorterThan(image, Journal(h, attempted));
      var j := FrameHit(h, attempted, |image|);
      FitsPrefix(h, attempted, j);
      FitsPrefix(h, attempted, j + 1);
      assert attempted[..j + 1] == attempted[..j] + [attempted[j]];
      JournalSnoc(h, attempted[..j], attempted[j]);
      var k := |image| - |Journal(h, attempted[..j])|;
      assert image == Journal(h, attempted[..j]) + FrameOf(attempted[j])[..k] by {
        PrefixSplit(image, Journal(h, attempted), Journal(h, attempted[..j]), FrameOf(attempted[j]), k);
      }
      CrashConsistency(h, attempted[..j], attempted[j], k);
    }
  }

  lemma Squeezed(a: seq<byte>, b: seq<byte>)
    requires a <= b && b <= a
    ensures a == b
  {
  }

  lemma ShorterThan(a: seq<byte>, b: seq<byte>)
    requires a <= b && a != b
    ensures |a| < |b|
  {
  }

  lemma PrefixSplit(image: seq<byte>, whole: seq<byte>, front: seq<byte>, frame: seq<byte>, k: nat)
    requires image <= whole && |image| == |front| + k && k <= |frame| && |front + frame| <= |whole|
    requires whole[..|front + frame|] == front + frame
    ensures image == front + frame[..k]
  {
    assert image == whole[..|image|] == whole[..|front + frame|][..|image|];
  }

  class Writer {
    const file: Descriptor
    const header: Header
    var committedCommandCount: u64
    var committedByteCount: u64
    var nextCommandSequence: u64
    var usable: bool
    ghost var committed: seq<Command>
    /** The committed commands and, once an append has failed, the command it was writing. */
    ghost var attempted: seq<Command>
    /** The history of the file starts at this content; `marks` says how much was committed at each one. */
    ghost const firstImage: nat
    ghost var marks: seq<nat>

    ghost predicate Valid()
      reads this, file
    {
      && file.Valid() && Fits(header, committed) && Fits(header, attempted)
      && committedCommandCount == |committed| && nextCommandSequence == |committed| + 1
      && committedByteCount == |Journal(header, committed)|
      && committed <= attempted && |attempted| <= |committed| + 1
      && Journal(header, committed) <= file.bytes <= Journal(header, attempted)
      && (usable ==> attempted == committed && file.position == |file.bytes|)
      && History(file.images, firstImage, marks, header, attempted) && AllUpTo(marks, |committed|)
    }

    /** Takes over a file that holds exactly a header and the commands read from it. */
    constructor (file: Descriptor, header: Header, ghost commands: seq<Command>, count: u64, byteCount: u64)
      requires file.Valid() && file.position == |file.bytes|
      requires Fits(header, commands) && file.bytes == Journal(header, commands)
      requires count == |commands| && byteCount == |file.bytes|
      ensures Valid() && usable && committed == commands && this.header == header && this.file == file
    {
      hide Journal, Fits;
      JournalOutgrowsCount(header, commands);
      this.file, this.header := file, header;
      committedCommandCount, committedByteCount := count, byteCount;
      nextCommandSequence := count + 1;
      usable := true;
      committed, attempted := commands, commands;
      firstImage, marks := |file.images|, [];
    }

    /** The checks made before anything is encoded, in the program's order. */
    method ValidateCommandContext(c: Command) returns (error: Option<AppendError>)
      requires Valid()
      ensures error.None? <==>
              && c.sequence == nextCommandSequence && c.run == header.run && c.rules == header.rules
              && HasConfiguration(header, c.instrumentId, c.configuration)
      ensures error == Some(UnexpectedSequence) <==> c.sequence != nextCommandSequence
    {
      if c.sequence != nextCommandSequence {
        return Some(UnexpectedSequence);
      }
      if c.run != header.run {
        return Some(RunIdMismatch);
      }
      if c.rules != header.rules {
        return Some(RulesVersionMismatch);
      }
      if !HasConfiguration(header, c.instrumentId, c.configuration) {
        return Some(InstrumentConfigurationMismatch);
      }
      error := None;
    }

    /** The size an append would add, known exactly for the commands an append would not refuse as invalid. */
    method ProspectiveFrameSize(c: Command) returns (size: Option<nat>)
      requires Valid()
      ensures size == if usable && InContext(header, c, |committed| + 1) then Some(|FrameOf(c)|) else None
    {
      hide Journal, FrameOf;
      if !usable {
        return None;
      }
      var contextError := ValidateCommandContext(c);
      if contextError.Some? {
        RulesAreFixed(c);
        return None;
      }
      var frame := EncodeCommand(c);
      if frame.Err? {
        return None;
      }
      size := Some(|frame.value|);
    }

    /** A command in context carries the behavioural rules of the header, since both know only one version. */
    lemma RulesAreFixed(c: Command)
      requires Valid()
      ensures InContext(header, c, |committed| + 1) ==> c.rules == header.rules
    {
      hide Journal;
    }

    /**
     * One append. The command is committed, refused without touching the file, or left unfinished, after which the
     * writer accepts nothing more. Every content the file passes through is the committed journal followed by some
     * leading part of the new frame.
     */
    method Append(c: Command) returns (outcome: AppendOutcome)
      requires Valid()
      modifies this`committedCommandCount, this`committedByteCount, this`nextCommandSequence, this`usable,
               this`committed, this`attempted, this`marks, file
      ensures Valid()
      ensures outcome.Committed? <==> committed == old(committed) + [c]
      ensures !outcome.Committed? ==> committed == old(committed)
      ensures outcome.InvalidCommand? <==> old(usable) && !InContext(header, c, old(|committed|) + 1)
      ensures outcome.CapacityReached? <==>
              old(usable) && InContext(header, c, old(|committed|) + 1) && !Fits(header, old(committed) + [c])
      ensures outcome.Committed? || outcome.InvalidCommand? || outcome.CapacityReached? ==> usable == old(usable) == true
      ensures outcome.IoFailure? || outcome.RecoveryRequired? ==> !usable
      ensures !old(usable) ==> outcome.RecoveryRequired?
      ensures old(usable) && Healthy(old(file.fates)) ==> !outcome.IoFailure? && !outcome.RecoveryRequired?
      ensures Healthy(old(file.fates)) ==> Healthy(file.fates)
      ensures !usable ==> attempted == if old(usable) then old(committed) + [c] else old(attempted)
      ensures !old(usable) || outcome.InvalidCommand? || outcome.CapacityReached? ==> unchanged(file)
      ensures old(file.images) <= file.images
      ensures Marked(marks, old(marks), old(|committed|), |committed|)
    {
      hide Journal, Fits, FrameOf, HasConfiguration, Refusal, Healthy;
      if !usable {
        return RecoveryRequired(0);
      }
      var contextError := ValidateCommandContext(c);
      if contextError.Some? {
        RulesAreFixed(c);
        return InvalidCommand(contextError.value);
      }
      var frame := EncodeCommand(c);
      if frame.Err? {
        return InvalidCommand(Codec(frame.error));
      }
      outcome := AppendEncoded(c, frame.value);
    }

    method AppendEncoded(ghost c: Command, frame: seq<byte>) returns (outcome: AppendOutcome)
      requires Valid() && usable && InContext(header, c, |committed| + 1) && frame == FrameOf(c)
      modifies this`committedCommandCount, this`committedByteCount, this`nextCommandSequence, this`usable,
               this`committed, this`attempted, this`marks, file
      ensures Valid()
      ensures outcome.Committed? <==> committed == old(committed) + [c]
      ensures !outcome.Committed? ==> committed == old(committed)
      ensures !outcome.InvalidCommand?
      ensures outcome.CapacityReached? <==> !Fits(header, old(committed) + [c])
      ensures outcome.IoFailure? || outcome.RecoveryRequired? <==> !usable
      ensures outcome.CapacityReached? ==> unchanged(file)
      ensures Healthy(old(file.fates)) ==> usable && Healthy(file.fates)
      ensures !usable ==> attempted == old(committed) + [c]
      ensures old(file.images) <= file.images
      ensures Marked(marks, old(marks), old(|committed|), |committed|)
    {
      hide Journal, Fits, FrameOf, InContext, History, AllUpTo, Healthy;
      FitsOneMore(header, committed, c);
      assert committedByteCount <= header.maxBytes by { WithinBytes(header, committed); }
      if committedCommandCount >= header.maxCommands {
        return CapacityReached;
      }
      if |frame| > header.maxBytes - committedByteCount {
        return CapacityReached;
      }
      outcome := WriteAndSync(c, frame);
    }

    method WriteAndSync(ghost c: Command, frame: seq<byte>) returns (outcome: AppendOutcome)
      requires Valid() && usable && Fits(header, committed + [c]) && frame == FrameOf(c)
      modifies this`committedCommandCount, this`committedByteCount, this`nextCommandSequence, this`usable,
               this`committed, this`attempted, this`marks, file
      ensures Valid()
      ensures outcome.Committed? || outcome.IoFailure? || outcome.RecoveryRequired?
      ensures outcome.Committed? <==> usable
      ensures committed == if outcome.Committed? then old(committed) + [c] else old(committed)
      ensures Healthy(old(file.fates)) ==> outcome.Committed? && Healthy(file.fates)
      ensures !usable ==> attempted == old(committed) + [c]
      ensures old(file.images) <= file.images
      ensures Marked(marks, old(marks), old(|committed|), |committed|)
    {
      hide Journal, Fits, FrameOf, InContext, AllBetween, Within, History, AllUpTo, Marked, Repeat, Healthy;
      JournalSnoc(header, committed, c);
      JournalOutgrowsCount(header, committed + [c]);
      WithinBytes(header, committed + [c]);
      assert file.bytes == Journal(header, committed) by { Squeezed(file.bytes, Journal(header, committed)); }
      HistoryGrows(file.images, firstImage, marks, header, committed, c);
      attempted := committed + [c];
      var failure := WriteAll(file, frame);
      WithinFrame(file.images, old(|file.images|), header, committed, c);
      marks := marks + Repeat(|committed|, |file.images| - old(|file.images|));
      HistoryExtends(old(file.images), file.images, firstImage, old(marks), header, attempted, |committed|);
      if failure.Some? {
        usable := false;
        return failure.value;
      }
      var syncError := Sync(file);
      if syncError.Some? {
        usable := false;
        return RecoveryRequired(syncError.value);
      }
      assert file.bytes == Journal(header, committed + [c]);
      committedCommandCount := committedCommandCount + 1;
      committedByteCount := committedByteCount + |frame|;
      nextCommandSequence := nextCommandSequence + 1;
      committed := committed + [c];
      MarkAcknowledged(marks, old(marks), old(|committed|), |committed|);
      WholeIsWithin(header, attempted);
      HistoryAcknowledges(file.images, firstImage, marks, header, attempted, old(|committed|), file.bytes);
      file.images, marks := file.images + [file.bytes], marks + [|committed|]; // the moment of acknowledgement
      outcome := Committed;
    }
  }

  /**
   * What a crash with `n` commands committed leaves loads as exactly those commands, or as those and the one in flight;
   * a torn frame is an incomplete tail at the committed offset, never corruption.
   */
  lemma CrashWithin(h: Header, commands: seq<Command>, n: nat, image: seq<byte>)
    requires Fits(h, commands) && Within(image, h, commands, n)
    ensures var r, committed := Parse(image), |Journal(h, commands[..n])|;
            || r == Intact(h, commands[..n], committed)
            || (r == IncompleteTail(h, commands[..n], committed, |image| - committed) && n < |commands|)
            || (n < |commands| && r == Intact(h, commands[..n + 1], |image|))
  {
    hide Journal, Fits, Parse, HeaderFrame;
    var upTo := if n < |commands| then n + 1 else n;
    var known := commands[..upTo];
    FitsPrefix(h, commands, upTo);
    HeaderLeads(h, commands[..n]);
    CrashAnywhere(h, known, image);
    assert known[..n] == commands[..n] && known[..upTo] == known;
    var r := Parse(image);
    if |r.commands| < n {
      FitsPrefix(h, commands, n);
      PartIsShorter(h, commands[..n], known, |r.commands| + 1);
      assert false; // the image is at least as long as the journal of the first n commands
    }
    assert r.commands == known[..|r.commands|];
  }

  /**
   * At every moment of a writer's life: when content `i` of the file appeared, some number of commands was committed,
   * and a crash then leaves exactly those, or those and the one in flight.
   */
  lemma CrashAtAnyMoment(w: Writer, i: nat)
    requires w.Valid() && i < |w.marks|
    ensures w.firstImage + i < |w.file.images| && w.marks[i] <= |w.committed| <= |w.attempted|
    ensures var r, n := Parse(w.file.images[w.firstImage + i]), w.marks[i];
            var committed := |Journal(w.header, w.attempted[..n])|;
            || r == Intact(w.header, w.attempted[..n], committed)
            || (r.IncompleteTail? && (r.header, r.commands, r.committed) == (w.header, w.attempted[..n], committed))
            || (n < |w.attempted| && r.Intact? && (r.header, r.commands) == (w.header, w.attempted[..n + 1]))
  {
    hide Journal, Fits, Parse, HeaderFrame, Within;
    CrashWithin(w.header, w.attempted, w.marks[i], w.file.images[w.firstImage + i]);
  }

  /** Reopened after the last append, the file holds every committed command and at most the one left unfinished. */
  lemma ReopensAsCommitted(w: Writer)
    requires w.Valid()
    ensures var r := Parse(w.file.bytes);
            && !r.Corruption? && r.header == w.header && (r.commands == w.committed || r.commands == w.attempted)
            && (r.IncompleteTail? ==> r.committed == |Journal(w.header, w.committed)|)
  {
    hide Journal, Fits, Parse, HeaderFrame;
    var n := |w.committed|;
    assert w.attempted[..n] == w.committed;
    assert w.attempted[..|w.attempted|] == w.attempted;
    CrashWithin(w.header, w.attempted, n, w.file.bytes);
  }

  lemma PartIsShorter(h: Header, committed: seq<Command>, attempted: seq<Command>, n: nat)
    requires Fits(h, committed) && committed <= attempted && n <= |committed|
    ensures |Journal(h, attempted[..n])| <= |Journal(h, committed)|
  {
    hide Journal, Fits;
    FitsPrefix(h, committed, n);
    assert attempted[..n] == committed[..n];
  }
}
