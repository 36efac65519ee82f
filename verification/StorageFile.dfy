/**
 * A journal file behind a descriptor. Every system call may be cut short, interrupted or fail; a script of fates
 * stands for the operating system's choices, and a call beyond its end does all it was asked to do. The ghost history
 * holds every content the file passes through, byte by byte, which is what a crash at any moment can leave behind.
 */
module StorageFile {
  import opened LittleEndian
  import opened Domain

  datatype Fate =
    | Moves(count: nat)
    | Interrupted
    | Fails(systemError: nat)
    | Misreports

  /** Short operations and interrupts, but neither errors nor impossible counts. */
  predicate Healthy(fates: seq<Fate>) {
    forall k | 0 <= k < |fates| :: fates[k].Interrupted? || (fates[k].Moves? && fates[k].count > 0)
  }

  predicate Uninterrupted(fates: seq<Fate>) {
    forall k | 0 <= k < |fates| :: !fates[k].Interrupted?
  }

  /** What a call leaves of the script: nothing longer and nothing worse. */
  ghost predicate Onward(before: seq<Fate>, after: seq<Fate>) {
    && |after| <= |before|
    && (Healthy(before) ==> Healthy(after))
    && (Uninterrupted(before) ==> Uninterrupted(after))
  }

  const EIO: nat := 5
  const EINTR: nat := 4

  class Descriptor {
    var bytes: seq<byte>
    var position: nat
    var fates: seq<Fate>
    ghost var images: seq<seq<byte>>

    ghost predicate Valid()
      reads this
    {
      position <= |bytes|
    }

    constructor (bytes: seq<byte>, fates: seq<Fate>)
      ensures Valid() && position == 0 && this.bytes == bytes && this.fates == fates && images == [bytes]
    {
      this.bytes, this.fates := bytes, fates;
      position := 0;
      images := [bytes];
    }

    method NextFate(otherwise: Fate) returns (fate: Fate)
      modifies this`fates
      ensures if old(fates) == [] then fate == otherwise && fates == []
              else fate == old(fates)[0] && fates == old(fates)[1..]
      ensures Onward(old(fates), fates)
    {
      fate := otherwise;
      if fates != [] {
        fate, fates := fates[0], fates[1..];
      }
    }

    /** Between one byte and `size` bytes, nothing at the end of the file, or an error. */
    method ReadFile(size: nat) returns (data: seq<byte>, fate: Fate)
      requires Valid() && size > 0
      modifies this`position, this`fates
      ensures Valid() && old(position) <= position && Onward(old(fates), fates)
      ensures fate.Moves? ==> data == bytes[old(position)..position] && |data| <= size
      ensures fate.Moves? && data == [] ==> position == |bytes|
      ensures fate.Interrupted? ==> |fates| < old(|fates|)
      ensures !fate.Moves? ==> position == old(position) && data == []
      ensures Healthy(old(fates)) ==> fate.Moves? || fate.Interrupted?
    {
      fate := NextFate(Moves(size));
      data := [];
      if fate.Moves? {
        var count := if fate.count == 0 then 1 else fate.count;
        var end := position + (if count < size then count else size);
        end := if end < |bytes| then end else |bytes|;
        data := bytes[position..end];
        position := end;
      }
    }

    /** Some leading part of the data reaches the end of the file; a misreporting call writes it all. */
    method WriteFile(data: seq<byte>) returns (fate: Fate)
      requires Valid() && position == |bytes| && data != []
      modifies this
      ensures Valid() && position == |bytes| && Onward(old(fates), fates)
      ensures fate.Interrupted? ==> |fates| < old(|fates|)
      ensures fate.Moves? ==> fate.count <= |data|
      ensures bytes == old(bytes) + (if fate.Moves? then data[..fate.count] else if fate.Misreports? then data else [])
      ensures old(images) <= images
      ensures forall i | old(|images|) <= i < |images| :: old(bytes) <= images[i] <= old(bytes) + data
      ensures Healthy(old(fates)) ==> fate.Interrupted? || (fate.Moves? && fate.count > 0)
    {
      fate := NextFate(Moves(|data|));
      if fate.Moves? && fate.count > |data| {
        fate := Moves(|data|);
      }
      if fate.Moves? || fate.Misreports? {
        var n := if fate.Moves? then fate.count else |data|;
        ghost var before := bytes;
        images := images + seq(n + 1, k requires 0 <= k <= n => before + data[..k]);
        bytes := bytes + data[..n];
        position := |bytes|;
      }
    }

    method SyncFile() returns (fate: Fate)
      modifies this`fates
      ensures Onward(old(fates), fates)
      ensures fate.Interrupted? ==> |fates| < old(|fates|)
      ensures Healthy(old(fates)) ==> fate.Moves? || fate.Interrupted?
    {
      fate := NextFate(Moves(0));
    }

    /** A misreporting call leaves the descriptor where it was, which the caller must notice. */
    method SeekFile(offset: nat) returns (fate: Fate)
      requires Valid() && offset <= |bytes|
      modifies this`position, this`fates
      ensures Valid() && Onward(old(fates), fates)
      ensures fate.Interrupted? ==> |fates| < old(|fates|)
      ensures position == if fate.Moves? then offset else old(position)
      ensures Healthy(old(fates)) ==> fate.Moves? || fate.Interrupted?
    {
      fate := NextFate(Moves(offset));
      if fate.Moves? {
        position := offset;
      }
    }

    method TruncateFile(length: nat) returns (fate: Fate)
      requires Valid() && length <= |bytes|
      modifies this
      ensures Valid()
      ensures if fate.Moves? then bytes == old(bytes)[..length] && images == old(images) + [bytes]
              else bytes == old(bytes) && images == old(images)
      ensures Onward(old(fates), fates)
      ensures Healthy(old(fates)) ==> fate.Moves? || fate.Interrupted?
      ensures Uninterrupted(old(fates)) ==> !fate.Interrupted?
    {
      fate := NextFate(Moves(0));
      if fate.Moves? {
        bytes := bytes[..length];
        images := images + [bytes];
        position := if position < length then position else length;
      }
    }

    method CloseFile() returns (fate: Fate)
      modifies this`fates
      ensures Onward(old(fates), fates)
      ensures Healthy(old(fates)) ==> fate.Moves? || fate.Interrupted?
      ensures Uninterrupted(old(fates)) ==> !fate.Interrupted?
    {
      fate := NextFate(Moves(0));
    }
  }

  /** Synchronises, retrying interrupts. */
  method Sync(file: Descriptor) returns (error: Option<nat>)
    modifies file`fates
    ensures Onward(old(file.fates), file.fates)
    ensures Healthy(old(file.fates)) ==> error.None?
  {
    while true
      invariant Onward(old(file.fates), file.fates)
      decreases |file.fates|
    {
      var fate := file.SyncFile();
      match fate {
        case Moves(_) => return None;
        case Interrupted =>
        case Fails(systemError) => return Some(systemError);
        case Misreports => return Some(EIO);
      }
    }
  }

  /** Seeks, retrying interrupts; landing anywhere else is an error. */
  method Seek(file: Descriptor, offset: nat) returns (error: Option<nat>)
    requires file.Valid() && offset <= |file.bytes|
    modifies file`position, file`fates
    ensures file.Valid() && Onward(old(file.fates), file.fates)
    ensures file.position == if error.None? then offset else old(file.position)
    ensures Healthy(old(file.fates)) ==> error.None?
  {
    while true
      invariant file.Valid() && file.position == old(file.position) && Onward(old(file.fates), file.fates)
      decreases |file.fates|
    {
      var fate := file.SeekFile(offset);
      match fate {
        case Moves(_) => return None;
        case Interrupted =>
        case Fails(systemError) => return Some(systemError);
        case Misreports => return Some(EIO);
      }
    }
  }
}
