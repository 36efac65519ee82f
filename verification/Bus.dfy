/**
 * The multicast ring under every interleaving. One writer and any number of readers, registered before the first write,
 * take one step at a time: each load, each store, and the beginning and end of each slot access is a step of its own.
 */
module Bus {
  import opened Domain

  /** A slot being overwritten is torn: reading it then would yield neither message. */
  datatype Slot = Empty | Torn | Full(message: Message)

  datatype WriterPhase =
    | WriterIdle
    | WriteLoaded(message: Message, write: nat)
    | CacheLoaded(message: Message, write: nat, cached: nat)
    | Scanning(message: Message, write: nat, next: nat, minimum: nat)
    | Admitted(message: Message, write: nat)
    | Storing(message: Message, write: nat)
    | Stored(message: Message, write: nat)

  datatype ReaderPhase =
    | ReaderIdle
    | CursorLoaded(cursor: nat)
    | Copying(cursor: nat)
    | Copied(cursor: nat, slot: Slot)

  /** The shared memory, where each thread stands, and the histories of what was published and received. */
  datatype State = State(
    size: nat,
    buffer: seq<Slot>,
    cursors: seq<nat>,
    cachedMinimum: nat,
    totalWrites: nat,
    writer: WriterPhase,
    readers: seq<ReaderPhase>,
    history: seq<Message>,
    received: seq<seq<Slot>>)

  datatype Action = WriterStep(message: Message) | ReaderStep(reader: nat)

  function Start(size: nat, readers: nat): State {
    State(size, seq(size, _ => Empty), seq(readers, _ => 0), 0, 0, WriterIdle, seq(readers, _ => ReaderIdle), [],
          seq(readers, _ => []))
  }

  function Min(a: nat, b: nat): nat {
    if a <= b then a else b
  }

  // ----- The steps

  function StepWriter(s: State, message: Message): State
    requires 0 < s.size == |s.buffer|
  {
    match s.writer
    case WriterIdle => s.(writer := WriteLoaded(message, s.totalWrites))
    case WriteLoaded(m, write) =>
      if |s.cursors| == 0 then s.(writer := Admitted(m, write))
      else s.(writer := CacheLoaded(m, write, s.cachedMinimum))
    case CacheLoaded(m, write, cached) =>
      if write >= cached + s.size then s.(writer := Scanning(m, write, 0, s.totalWrites))
      else s.(writer := Admitted(m, write))
    case Scanning(m, write, next, minimum) =>
      if next < |s.cursors| then s.(writer := Scanning(m, write, next + 1, Min(minimum, s.cursors[next])))
      else
        s.(cachedMinimum := minimum,
           writer := if write >= minimum + s.size then WriterIdle else Admitted(m, write))
    case Admitted(m, write) => s.(buffer := s.buffer[write % s.size := Torn], writer := Storing(m, write))
    case Storing(m, write) => s.(buffer := s.buffer[write % s.size := Full(m)], writer := Stored(m, write))
    case Stored(m, write) =>
      s.(totalWrites := write + 1, history := s.history + [m], writer := WriterIdle)
  }

  function StepReader(s: State, i: nat): State
    requires 0 < s.size == |s.buffer| && |s.readers| == |s.cursors| == |s.received|
  {
    if i >= |s.readers| then s
    else
      match s.readers[i]
      case ReaderIdle => s.(readers := s.readers[i := CursorLoaded(s.cursors[i])])
      case CursorLoaded(cursor) =>
        var next := s.totalWrites;
        var oldest := if next > s.size then next - s.size else 0;
        if cursor >= next || cursor < oldest then s.(readers := s.readers[i := ReaderIdle])
        else s.(readers := s.readers[i := Copying(cursor)])
      case Copying(cursor) =>
        var slot := s.buffer[cursor % s.size];
        if slot.Empty? then s.(readers := s.readers[i := ReaderIdle])
        else s.(readers := s.readers[i := Copied(cursor, slot)])
      case Copied(cursor, slot) =>
        s.(cursors := s.cursors[i := cursor + 1], received := s.received[i := s.received[i] + [slot]],
           readers := s.readers[i := ReaderIdle])
  }

  function Step(s: State, a: Action): State
    requires Shaped(s)
  {
    match a
    case WriterStep(message) => StepWriter(s, message)
    case ReaderStep(i) => StepReader(s, i)
  }

  predicate Shaped(s: State) {
    0 < s.size == |s.buffer| && |s.readers| == |s.cursors| == |s.received|
  }

  // ----- The invariant

  /** The writer may store at `write`: no reader still needs the message that slot held. */
  ghost predicate Unread(s: State, write: nat) {
    forall i | 0 <= i < |s.cursors| :: write < s.cursors[i] + s.size
  }

  ghost predicate WriterInStep(s: State)
    requires Shaped(s)
  {
    match s.writer
    case WriterIdle => true
    case WriteLoaded(_, write) => write == s.totalWrites
    case CacheLoaded(_, write, cached) => write == s.totalWrites && cached == s.cachedMinimum
    case Scanning(_, write, next, minimum) =>
      && write == s.totalWrites && next <= |s.cursors| && minimum <= s.totalWrites
      && (forall i | 0 <= i < next :: minimum <= s.cursors[i])
    case Admitted(_, write) => write == s.totalWrites && Unread(s, write)
    case Storing(_, write) => write == s.totalWrites && Unread(s, write)
    case Stored(m, write) => write == s.totalWrites && Unread(s, write) && s.buffer[write % s.size] == Full(m)
  }

  /** The first message still intact in the ring. */
  function Oldest(s: State): nat {
    var reach := s.totalWrites + (if s.writer.Storing? || s.writer.Stored? then 1 else 0);
    if reach > s.size then reach - s.size else 0
  }

  ghost predicate RingIsIntact(s: State)
    requires Shaped(s)
  {
    forall k | Oldest(s) <= k < |s.history| :: s.buffer[k % s.size] == Full(s.history[k])
  }

  ghost predicate ReaderInStep(s: State, i: nat)
    requires i < |s.readers| == |s.cursors| == |s.received|
  {
    && s.cursors[i] <= s.totalWrites <= s.cursors[i] + s.size
    && s.cachedMinimum <= s.cursors[i]
    && |s.received[i]| == s.cursors[i] <= |s.history|
    && (forall k | 0 <= k < s.cursors[i] :: s.received[i][k] == Full(s.history[k]))
    && match s.readers[i]
       case ReaderIdle => true
       case CursorLoaded(cursor) => cursor == s.cursors[i]
       case Copying(cursor) => cursor == s.cursors[i] < |s.history|
       case Copied(cursor, slot) => cursor == s.cursors[i] < |s.history| && slot == Full(s.history[cursor])
  }

  ghost predicate Inv(s: State) {
    && Shaped(s) && |s.history| == s.totalWrites
    && WriterInStep(s) && RingIsIntact(s)
    && (forall i | 0 <= i < |s.readers| :: ReaderInStep(s, i))
  }

  lemma DivMod(x: nat, n: nat)
    requires n > 0
    ensures x == (x / n) * n + x % n
  {
  }

  lemma Distribute(x: int, y: int, n: int)
    ensures (x - y) * n == x * n - y * n
  {
  }

  lemma MultipleIsFar(d: int, n: nat)
    ensures d >= 1 ==> d * n >= n
    ensures d <= 0 ==> d * n <= 0
  {
    if d >= 1 {
      Distribute(d, 1, n);
    }
  }

  /** Two positions less than a lap apart never share a slot. */
  lemma DifferentSlots(a: nat, b: nat, size: nat)
    requires a < b < a + size
    ensures a % size != b % size
  {
    DivMod(a, size);
    DivMod(b, size);
    var laps := b / size - a / size;
    Distribute(b / size, a / size, size);
    MultipleIsFar(laps, size);
  }

  lemma OthersUntouched(s: State, write: nat)
    requires Shaped(s) && write == s.totalWrites == |s.history|
    ensures forall k | write + 1 <= k + s.size && 0 <= k < |s.history| :: k % s.size != write % s.size
  {
    forall k | write + 1 <= k + s.size && 0 <= k < |s.history|
      ensures k % s.size != write % s.size
    {
      DifferentSlots(k, write, s.size);
    }
  }

  /** No slot is read while it is torn: what a reader needs is always intact. */
  lemma NeededIsIntact(s: State, i: nat)
    requires Inv(s) && i < |s.readers| && s.cursors[i] < |s.history|
    ensures s.buffer[s.cursors[i] % s.size] == Full(s.history[s.cursors[i]])
  {
    assert ReaderInStep(s, i);
    assert Oldest(s) <= s.cursors[i];
  }

  lemma WriterKeepsInv(s: State, message: Message)
    requires Inv(s)
    ensures Inv(StepWriter(s, message))
  {
    var t := StepWriter(s, message);
    if s.writer.Admitted? || s.writer.Storing? {
      OthersUntouched(s, s.writer.write);
    }
    WriterKeepsReaders(s, message);
    WriterKeepsRing(s, message);
    WriterStaysInStep(s, message);
  }

  lemma WriterKeepsRing(s: State, message: Message)
    requires Inv(s)
    ensures RingIsIntact(StepWriter(s, message))
  {
    if s.writer.Admitted? || s.writer.Storing? {
      OthersUntouched(s, s.writer.write);
    }
  }

  lemma WriterStaysInStep(s: State, message: Message)
    requires Inv(s)
    ensures WriterInStep(StepWriter(s, message))
  {
    forall i | 0 <= i < |s.cursors|
      ensures s.cachedMinimum <= s.cursors[i] <= s.totalWrites
    {
      assert ReaderInStep(s, i);
    }
    var t := StepWriter(s, message);
    if s.writer.CacheLoaded? && t.writer.Admitted? {
      assert Unread(t, t.writer.write);
    }
  }

  lemma WriterKeepsReaders(s: State, message: Message)
    requires Inv(s)
    ensures forall i | 0 <= i < |s.readers| :: ReaderInStep(StepWriter(s, message), i)
  {
    forall i | 0 <= i < |s.readers|
      ensures ReaderInStep(StepWriter(s, message), i)
    {
      assert ReaderInStep(s, i);
    }
  }

  lemma ReaderKeepsInv(s: State, i: nat)
    requires Inv(s)
    ensures Inv(StepReader(s, i))
  {
    if i < |s.readers| {
      var t := StepReader(s, i);
      assert ReaderInStep(s, i);
      if s.cursors[i] < |s.history| {
        NeededIsIntact(s, i);
      }
      forall j | 0 <= j < |t.readers|
        ensures ReaderInStep(t, j)
      {
        assert ReaderInStep(s, j);
      }
    }
  }

  lemma StepKeepsInv(s: State, a: Action)
    requires Inv(s)
    ensures Inv(Step(s, a))
  {
    match a {
      case WriterStep(message) => WriterKeepsInv(s, message);
      case ReaderStep(i) => ReaderKeepsInv(s, i);
    }
  }

  // ----- Every interleaving

  ghost predicate Runs(s: State, actions: seq<Action>, t: State)
    decreases |actions|
  {
    if actions == [] then t == s
    else exists middle ::
           Runs(s, actions[..|actions| - 1], middle) && Shaped(middle) && t == Step(middle, actions[|actions| - 1])
  }

  lemma {:induction false} RunsKeepInv(s: State, actions: seq<Action>, t: State)
    requires Inv(s) && Runs(s, actions, t)
    ensures Inv(t)
    decreases |actions|
  {
    if actions != [] {
      var front, last := actions[..|actions| - 1], actions[|actions| - 1];
      var middle :| Runs(s, front, middle) && Shaped(middle) && t == Step(middle, last);
      RunsKeepInv(s, front, middle);
      StepKeepsInv(middle, last);
    }
  }

  lemma StartIsInv(size: nat, readers: nat)
    requires size > 0
    ensures Inv(Start(size, readers))
  {
  }

  /**
   * In every interleaving: each reader has received exactly the published messages up to its cursor, in order, without
   * gaps and never torn; the cached minimum never passes a cursor; no unread message is overwritten; and a reader that
   * is behind never finds its message gone.
   */
  lemma EveryInterleaving(size: nat, readers: nat, actions: seq<Action>, s: State)
    requires size > 0 && Runs(Start(size, readers), actions, s)
    ensures Shaped(s)
    ensures forall i | 0 <= i < |s.cursors| ::
              && s.cachedMinimum <= s.cursors[i] <= |s.history| <= s.cursors[i] + s.size
              && |s.received[i]| == s.cursors[i]
              && (forall k | 0 <= k < |s.received[i]| :: s.received[i][k] == Full(s.history[k]))
    ensures forall i, k | 0 <= i < |s.cursors| && s.cursors[i] <= k < |s.history| ::
              s.buffer[k % s.size] == Full(s.history[k])
    ensures forall i | 0 <= i < |s.readers| && s.cursors[i] < |s.history| :: NeverTurnedAway(s, i)
  {
    StartIsInv(size, readers);
    RunsKeepInv(Start(size, readers), actions, s);
    hide Runs, Start;
    forall i | 0 <= i < |s.cursors|
      ensures s.cachedMinimum <= s.cursors[i] <= |s.history| <= s.cursors[i] + s.size
      ensures |s.received[i]| == s.cursors[i]
      ensures forall k | 0 <= k < |s.received[i]| :: s.received[i][k] == Full(s.history[k])
      ensures forall k | s.cursors[i] <= k < |s.history| :: s.buffer[k % s.size] == Full(s.history[k])
      ensures s.cursors[i] < |s.history| ==> NeverTurnedAway(s, i)
    {
      ReaderIsServed(s, i);
    }
  }

  /** A reader that is behind gets past each of the checks made on it. */
  ghost predicate NeverTurnedAway(s: State, i: nat)
    requires Shaped(s) && i < |s.readers|
  {
    && (s.readers[i].CursorLoaded? ==> StepReader(s, i).readers[i].Copying?)
    && (s.readers[i].Copying? ==> StepReader(s, i).readers[i] == Copied(s.cursors[i], s.buffer[s.cursors[i] % s.size]))
  }

  lemma ReaderIsServed(s: State, i: nat)
    requires Inv(s) && i < |s.readers|
    ensures s.cachedMinimum <= s.cursors[i] <= |s.history| <= s.cursors[i] + s.size
    ensures |s.received[i]| == s.cursors[i]
    ensures forall k | 0 <= k < |s.received[i]| :: s.received[i][k] == Full(s.history[k])
    ensures forall k | s.cursors[i] <= k < |s.history| :: s.buffer[k % s.size] == Full(s.history[k])
    ensures s.cursors[i] < |s.history| ==> NeverTurnedAway(s, i)
  {
    assert ReaderInStep(s, i);
    if s.cursors[i] < |s.history| {
      NeededIsIntact(s, i);
    }
    assert s.cursors[i] < |s.history| ==> Oldest(s) <= s.cursors[i];
  }


  // ----- One write without interruption

  /** The writer's steps alone, until it is idle again. */
  function WriteAlone(s: State, m: Message, steps: nat): State
    requires Shaped(s)
    decreases steps
  {
    var next := StepWriter(s, m);
    if steps == 0 || next.writer.WriterIdle? then next else WriteAlone(next, m, steps - 1)
  }

  /** A reader is a whole lap behind, so the slot the next message needs is not free. */
  ghost predicate LapBehind(s: State) {
    exists i :: 0 <= i < |s.cursors| && s.cursors[i] + s.size <= s.totalWrites
  }

  /** The message behind everything published so far, and in the ring. */
  function Published(s: State, m: Message, cachedMinimum: nat): State
    requires Shaped(s)
  {
    s.(buffer := s.buffer[s.totalWrites % s.size := Full(m)], totalWrites := s.totalWrites + 1, history := s.history + [m],
       cachedMinimum := cachedMinimum, writer := WriterIdle)
  }

  lemma StoresAlone(s: State, m: Message, steps: nat)
    requires Shaped(s) && s.writer == Admitted(m, s.totalWrites) && steps >= 2
    ensures WriteAlone(s, m, steps) == Published(s, m, s.cachedMinimum)
  {
    var torn := StepWriter(s, m);
    var stored := StepWriter(torn, m);
    assert torn.buffer[s.totalWrites % s.size := Full(m)] == s.buffer[s.totalWrites % s.size := Full(m)];
    assert WriteAlone(s, m, steps) == WriteAlone(torn, m, steps - 1) == WriteAlone(stored, m, steps - 2);
  }

  /** The scan finds the smallest cursor, and with it whether some reader is a lap behind. */
  lemma {:induction false} ScansAlone(s: State, m: Message, steps: nat)
    requires Shaped(s) && s.writer.Scanning? && s.writer.message == m && s.writer.write == s.totalWrites
    requires s.writer.next <= |s.cursors| && steps >= |s.cursors| - s.writer.next + 3
    requires s.writer.minimum <= s.totalWrites
    ensures var t := WriteAlone(s, m, steps);
            if s.writer.minimum + s.size <= s.totalWrites ||
               (exists i :: s.writer.next <= i < |s.cursors| && s.cursors[i] + s.size <= s.totalWrites)
            then t == s.(writer := WriterIdle, cachedMinimum := t.cachedMinimum)
            else t == Published(s, m, t.cachedMinimum)
    decreases |s.cursors| - s.writer.next
  {
    var next := StepWriter(s, m);
    if s.writer.next < |s.cursors| {
      assert WriteAlone(s, m, steps) == WriteAlone(next, m, steps - 1);
      ScansAlone(next, m, steps - 1);
    } else if s.writer.minimum + s.size > s.totalWrites {
      assert WriteAlone(s, m, steps) == WriteAlone(next, m, steps - 1);
      StoresAlone(next, m, steps - 1);
    }
  }

  /** A write is refused exactly when a reader is a lap behind; otherwise it publishes its message behind all others. */
  lemma WritesAlone(s: State, m: Message)
    requires Inv(s) && s.writer.WriterIdle?
    ensures var t := WriteAlone(s, m, |s.cursors| + 6);
            if LapBehind(s) then t == s.(cachedMinimum := t.cachedMinimum) else t == Published(s, m, t.cachedMinimum)
  {
    var n := |s.cursors| + 6;
    var loaded := StepWriter(s, m);
    var second := StepWriter(loaded, m);
    assert WriteAlone(s, m, n) == WriteAlone(loaded, m, n - 1) == WriteAlone(second, m, n - 2);
    forall i | 0 <= i < |s.cursors|
      ensures s.cachedMinimum <= s.cursors[i]
    {
      assert ReaderInStep(s, i);
    }
    if |s.cursors| == 0 {
      StoresAlone(second, m, n - 2);
    } else {
      var third := StepWriter(second, m);
      assert WriteAlone(second, m, n - 2) == WriteAlone(third, m, n - 3);
      if third.writer.Scanning? {
        ScansAlone(third, m, n - 3);
      } else {
        StoresAlone(third, m, n - 3);
      }
    }
  }
}
