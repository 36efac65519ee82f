/**
 * Bytes and the fixed-width little-endian integers that every journal codec is built from.
 * `Encode`/`Decode` are the value-level specification; `Write` and `Read` are the program's loops.
 */
module LittleEndian {
  type byte = b: int | 0 <= b < 256

  const U32_LIMIT: nat := 0x1_0000_0000
  const U64_LIMIT: nat := 0x1_0000_0000_0000_0000

  function Limit(width: nat): nat
    ensures Limit(width) > 0
  {
    if width == 0 then 1 else 256 * Limit(width - 1)
  }

  /** The limits the codecs use. */
  lemma Limits()
    ensures Limit(1) == 256
    ensures Limit(2) == 0x1_0000
    ensures Limit(4) == U32_LIMIT
    ensures Limit(8) == U64_LIMIT
  {
    assert Limit(2) == 256 * Limit(1);
    assert Limit(4) == 256 * (256 * Limit(2));
    assert Limit(6) == 256 * (256 * Limit(4));
    assert Limit(8) == 256 * (256 * Limit(6));
  }

  function Encode(width: nat, value: nat): (bytes: seq<byte>)
    ensures |bytes| == width
  {
    if width == 0 then [] else [value % 256] + Encode(width - 1, value / 256)
  }

  function Decode(bytes: seq<byte>): nat {
    if bytes == [] then 0 else bytes[0] + 256 * Decode(bytes[1..])
  }

  lemma {:induction false} DecodeBound(bytes: seq<byte>)
    ensures Decode(bytes) < Limit(|bytes|)
  {
    if bytes != [] {
      DecodeBound(bytes[1..]);
    }
  }

  lemma {:induction false} DecodeEncode(width: nat, value: nat)
    requires value < Limit(width)
    ensures Decode(Encode(width, value)) == value
  {
    if width > 0 {
      DecodeEncode(width - 1, value / 256);
      assert Encode(width, value)[1..] == Encode(width - 1, value / 256);
    }
  }

  lemma LowByte(low: byte, high: nat)
    ensures (low + 256 * high) % 256 == low && (low + 256 * high) / 256 == high
  {
  }

  lemma {:induction false} EncodeDecode(bytes: seq<byte>)
    ensures Encode(|bytes|, Decode(bytes)) == bytes
  {
    if bytes != [] {
      EncodeDecode(bytes[1..]);
      LowByte(bytes[0], Decode(bytes[1..]));
    }
  }

  /** Bytes of a buffer with `bytes` laid over it at `offset`. */
  function Overlay(buffer: seq<byte>, offset: nat, bytes: seq<byte>): (r: seq<byte>)
    requires offset + |bytes| <= |buffer|
    ensures |r| == |buffer|
  {
    buffer[..offset] + bytes + buffer[offset + |bytes|..]
  }

  function Shifted(value: nat, steps: nat): nat {
    if steps == 0 then value else Shifted(value, steps - 1) / 256
  }

  lemma {:induction false} EncodeAt(width: nat, value: nat, index: nat)
    requires index < width
    ensures Encode(width, value)[index] == Shifted(value, index) % 256
  {
    if index > 0 {
      EncodeAt(width - 1, value / 256, index - 1);
      ShiftedFront(value, index);
    }
  }

  lemma {:induction false} ShiftedFront(value: nat, steps: nat)
    requires steps > 0
    ensures Shifted(value, steps) == Shifted(value / 256, steps - 1)
  {
    if steps > 1 {
      ShiftedFront(value, steps - 1);
    }
  }

  /** The write loop: byte `index` receives the value shifted right by `8 * index` bits. */
  method Write(buffer: array<byte>, offset: nat, width: nat, value: nat)
    requires offset + width <= buffer.Length
    modifies buffer
    ensures buffer[..] == Overlay(old(buffer[..]), offset, Encode(width, value))
  {
    var shifted := value;
    for index := 0 to width
      invariant shifted == Shifted(value, index)
      invariant forall k :: 0 <= k < index ==> buffer[offset + k] == Encode(width, value)[k]
      invariant forall k :: 0 <= k < buffer.Length && !(offset <= k < offset + index) ==> buffer[k] == old(buffer[k])
    {
      EncodeAt(width, value, index);
      buffer[offset + index] := shifted % 256;
      shifted := shifted / 256;
    }
    var encoded := Encode(width, value);
    forall k | 0 <= k < buffer.Length
      ensures buffer[k] == Overlay(old(buffer[..]), offset, encoded)[k]
    {
      if offset <= k < offset + width {
        assert encoded[k - offset] == buffer[offset + (k - offset)];
      }
    }
  }

  lemma {:induction false} DecodeSnoc(bytes: seq<byte>, last: byte)
    ensures Decode(bytes + [last]) == Decode(bytes) + last * Limit(|bytes|)
  {
    if bytes != [] {
      assert (bytes + [last])[1..] == bytes[1..] + [last];
      DecodeSnoc(bytes[1..], last);
      MoveFactor(last, Limit(|bytes| - 1));
    }
  }

  lemma MoveFactor(x: nat, y: nat)
    ensures 256 * (x * y) == x * (256 * y)
  {
  }

  /** The read loop: accumulates byte `index` scaled by `256^index`. */
  method Read(bytes: seq<byte>, offset: nat, width: nat) returns (value: nat)
    requires offset + width <= |bytes|
    ensures value == Decode(bytes[offset..offset + width])
  {
    value := 0;
    var scale: nat := 1;
    for index := 0 to width
      invariant scale == Limit(index)
      invariant value == Decode(bytes[offset..offset + index])
    {
      assert bytes[offset..offset + index + 1] == bytes[offset..offset + index] + [bytes[offset + index]];
      DecodeSnoc(bytes[offset..offset + index], bytes[offset + index]);
      value := value + bytes[offset + index] * scale;
      scale := 256 * scale;
    }
  }
}

/**
 * CRC-32C as the journal computes it (the Castagnoli polynomial of section 12.1 of RFC 3720, reflected).
 * The point proved here is the one the journal relies on: a change confined to one byte always changes the
 * checksum, because every bit step is injective on the 32-bit state.
 */
module Crc32c {
  import opened LittleEndian

  const REFLECTED_CASTAGNOLI_POLYNOMIAL: bv32 := 0x82F63B78
  const INITIAL_STATE: bv32 := 0xFFFF_FFFF
  const FINAL_XOR: bv32 := 0xFFFF_FFFF

  function BitStep(state: bv32): bv32 {
    (state >> 1) ^ (REFLECTED_CASTAGNOLI_POLYNOMIAL & (0 - (state & 1)))
  }

  function BitSteps(state: bv32, count: nat): bv32
    decreases count
  {
    if count == 0 then state else BitStep(BitSteps(state, count - 1))
  }

  predicate Odd(n: nat) {
    n % 2 == 1
  }

  /** The word whose low eight bits are those of the byte. */
  function Widen(b: byte): bv32 {
    Pack(Odd(b), Odd(b / 2), Odd(b / 2 / 2), Odd(b / 2 / 2 / 2), Odd(b / 2 / 2 / 2 / 2), Odd(b / 2 / 2 / 2 / 2 / 2),
         Odd(b / 2 / 2 / 2 / 2 / 2 / 2), Odd(b / 2 / 2 / 2 / 2 / 2 / 2 / 2))
  }

  function Pack(b0: bool, b1: bool, b2: bool, b3: bool, b4: bool, b5: bool, b6: bool, b7: bool): bv32 {
    (if b0 then 1 else 0) | (if b1 then 2 else 0) | (if b2 then 4 else 0) | (if b3 then 8 else 0) |
    (if b4 then 16 else 0) | (if b5 then 32 else 0) | (if b6 then 64 else 0) | (if b7 then 128 else 0)
  }

  function EightBitSteps(state: bv32): bv32 {
    BitSteps(state, 8)
  }

  function Mix(state: bv32, word: bv32): bv32 {
    EightBitSteps(state ^ word)
  }

  function ByteStep(state: bv32, b: byte): bv32 {
    Mix(state, Widen(b))
  }

  function Update(state: bv32, bytes: seq<byte>): bv32
    decreases |bytes|
  {
    if bytes == [] then state else ByteStep(Update(state, bytes[..|bytes| - 1]), bytes[|bytes| - 1])
  }

  function Checksum(bytes: seq<byte>): (checksum: nat)
    ensures checksum < U32_LIMIT
  {
    (Update(INITIAL_STATE, bytes) ^ FINAL_XOR) as int
  }

  lemma BitStepInjective(s: bv32, t: bv32)
    requires BitStep(s) == BitStep(t)
    ensures s == t
  {
  }

  lemma {:induction false} BitStepsInjective(s: bv32, t: bv32, count: nat)
    requires BitSteps(s, count) == BitSteps(t, count)
    ensures s == t
    decreases count
  {
    if count > 0 {
      BitStepInjective(BitSteps(s, count - 1), BitSteps(t, count - 1));
      BitStepsInjective(s, t, count - 1);
    }
  }

  lemma PackInjective(b0: bool, b1: bool, b2: bool, b3: bool, b4: bool, b5: bool, b6: bool, b7: bool,
                      c0: bool, c1: bool, c2: bool, c3: bool, c4: bool, c5: bool, c6: bool, c7: bool)
    requires Pack(b0, b1, b2, b3, b4, b5, b6, b7) == Pack(c0, c1, c2, c3, c4, c5, c6, c7)
    ensures b0 == c0 && b1 == c1 && b2 == c2 && b3 == c3 && b4 == c4 && b5 == c5 && b6 == c6 && b7 == c7
  {
  }

  /** A number is its half and its parity. */
  lemma HalfAndParity(n: nat, m: nat)
    requires n / 2 == m / 2 && Odd(n) == Odd(m)
    ensures n == m
  {
  }

  lemma SevenHalves(b: byte)
    ensures 0 <= b / 2 / 2 / 2 / 2 / 2 / 2 / 2 < 2
  {
  }

  lemma WidenInjective(b: byte, c: byte)
    requires Widen(b) == Widen(c)
    ensures b == c
  {
    hide Pack, Odd;
    var b1, c1 := b / 2, c / 2;
    var b2, c2 := b1 / 2, c1 / 2;
    var b3, c3 := b2 / 2, c2 / 2;
    var b4, c4 := b3 / 2, c3 / 2;
    var b5, c5 := b4 / 2, c4 / 2;
    var b6, c6 := b5 / 2, c5 / 2;
    var b7, c7 := b6 / 2, c6 / 2;
    PackInjective(Odd(b), Odd(b1), Odd(b2), Odd(b3), Odd(b4), Odd(b5), Odd(b6), Odd(b7),
                  Odd(c), Odd(c1), Odd(c2), Odd(c3), Odd(c4), Odd(c5), Odd(c6), Odd(c7));
    assert b7 == c7 by {
      SevenHalves(b);
      SevenHalves(c);
      HalfAndParity(b7, c7);
    }
    FourSteps(b3, c3);
    ThreeSteps(b, c);
  }

  lemma FourSteps(n: nat, m: nat)
    requires n / 2 / 2 / 2 / 2 == m / 2 / 2 / 2 / 2
    requires Odd(n) == Odd(m) && Odd(n / 2) == Odd(m / 2) && Odd(n / 2 / 2) == Odd(m / 2 / 2)
    requires Odd(n / 2 / 2 / 2) == Odd(m / 2 / 2 / 2)
    ensures n == m
  {
    hide Odd;
    HalfAndParity(n / 2 / 2 / 2, m / 2 / 2 / 2);
    ThreeSteps(n, m);
  }

  lemma ThreeSteps(n: nat, m: nat)
    requires n / 2 / 2 / 2 == m / 2 / 2 / 2
    requires Odd(n) == Odd(m) && Odd(n / 2) == Odd(m / 2) && Odd(n / 2 / 2) == Odd(m / 2 / 2)
    ensures n == m
  {
    hide Odd;
    HalfAndParity(n / 2 / 2, m / 2 / 2);
    HalfAndParity(n / 2, m / 2);
    HalfAndParity(n, m);
  }

  lemma XorLeft(s: bv32, x: bv32, y: bv32)
    requires s ^ x == s ^ y
    ensures x == y
  {
  }

  lemma XorRight(s: bv32, t: bv32, x: bv32)
    requires s ^ x == t ^ x
    ensures s == t
  {
  }

  lemma WordRoundTrip(s: bv32)
    ensures (s as int) as bv32 == s
  {
  }

  lemma EightBitStepsInjective(s: bv32, t: bv32)
    requires EightBitSteps(s) == EightBitSteps(t)
    ensures s == t
  {
    BitStepsInjective(s, t, 8);
  }

  lemma MixInjectiveInState(s: bv32, t: bv32, word: bv32)
    requires Mix(s, word) == Mix(t, word)
    ensures s == t
  {
    hide EightBitSteps;
    EightBitStepsInjective(s ^ word, t ^ word);
    XorRight(s, t, word);
  }

  lemma MixInjectiveInWord(s: bv32, x: bv32, y: bv32)
    requires Mix(s, x) == Mix(s, y)
    ensures x == y
  {
    hide EightBitSteps;
    EightBitStepsInjective(s ^ x, s ^ y);
    XorLeft(s, x, y);
  }

  lemma FinishInjective(s: bv32, t: bv32)
    requires (s ^ FINAL_XOR) as int == (t ^ FINAL_XOR) as int
    ensures s == t
  {
    WordRoundTrip(s ^ FINAL_XOR);
    WordRoundTrip(t ^ FINAL_XOR);
    XorRight(s, t, FINAL_XOR);
  }

  /** From different states the same bytes lead to different states. */
  lemma {:induction false} UpdateInjectiveInState(s: bv32, t: bv32, bytes: seq<byte>)
    requires Update(s, bytes) == Update(t, bytes)
    ensures s == t
    decreases |bytes|
  {
    hide Mix;
    if bytes != [] {
      var front, last := bytes[..|bytes| - 1], bytes[|bytes| - 1];
      MixInjectiveInState(Update(s, front), Update(t, front), Widen(last));
      UpdateInjectiveInState(s, t, front);
    }
  }

  lemma {:induction false} UpdateConcat(state: bv32, a: seq<byte>, b: seq<byte>)
    ensures Update(state, a + b) == Update(Update(state, a), b)
    decreases |b|
  {
    if b == [] {
      assert a + b == a;
    } else {
      assert (a + b)[..|a + b| - 1] == a + b[..|b| - 1];
      UpdateConcat(state, a, b[..|b| - 1]);
    }
  }

  lemma UpdateEmpty(state: bv32)
    ensures Update(state, []) == state
  {
  }

  lemma UpdateSnoc(state: bv32, front: seq<byte>, last: byte)
    ensures Update(state, front + [last]) == ByteStep(Update(state, front), last)
  {
    hide Mix;
    assert (front + [last])[..|front|] == front;
  }

  /** Two byte strings of one length that differ in exactly one place. */
  ghost predicate DifferInOneByte(a: seq<byte>, b: seq<byte>) {
    |a| == |b| && exists k :: 0 <= k < |a| && DifferOnlyAt(a, b, k)
  }

  ghost predicate DifferOnlyAt(a: seq<byte>, b: seq<byte>, k: nat)
    requires |a| == |b|
  {
    k < |a| && b == a[k := b[k]] && a[k] != b[k]
  }

  lemma OneByteChangesState(state: bv32, a: seq<byte>, b: seq<byte>, k: nat)
    requires |a| == |b| && DifferOnlyAt(a, b, k)
    ensures Update(state, a) != Update(state, b)
  {
    hide Mix, Update, Widen;
    var front, back := a[..k], a[k + 1..];
    var s := Update(state, front);
    assert a == front + [a[k]] + back;
    assert b == front + [b[k]] + back;
    UpdateConcat(state, front + [a[k]], back);
    UpdateConcat(state, front + [b[k]], back);
    UpdateSnoc(state, front, a[k]);
    UpdateSnoc(state, front, b[k]);
    if Update(state, a) == Update(state, b) {
      UpdateInjectiveInState(ByteStep(s, a[k]), ByteStep(s, b[k]), back);
      MixInjectiveInWord(s, Widen(a[k]), Widen(b[k]));
      WidenInjective(a[k], b[k]);
    }
  }

  /** A change in one byte is always visible in the checksum. */
  lemma OneByteChangesChecksum(a: seq<byte>, b: seq<byte>)
    requires DifferInOneByte(a, b)
    ensures Checksum(a) != Checksum(b)
  {
    hide Update;
    var k :| 0 <= k < |a| && DifferOnlyAt(a, b, k);
    OneByteChangesState(INITIAL_STATE, a, b, k);
    if Checksum(a) == Checksum(b) {
      FinishInjective(Update(INITIAL_STATE, a), Update(INITIAL_STATE, b));
    }
  }

  /** The accumulator: a running state fed slice by slice. */
  class Accumulator {
    var state: bv32

    constructor ()
      ensures state == INITIAL_STATE
    {
      state := INITIAL_STATE;
    }

    method Feed(bytes: seq<byte>)
      modifies this
      ensures state == Update(old(state), bytes)
    {
      hide Mix, Update;
      assert bytes[..0] == [] && Update(state, []) == state by { UpdateEmpty(state); }
      for index := 0 to |bytes|
        invariant state == Update(old(state), bytes[..index])
      {
        FeedByte(bytes[index]);
        UpdateSnoc(old(state), bytes[..index], bytes[index]);
        assert bytes[..index + 1] == bytes[..index] + [bytes[index]];
      }
      assert bytes[..|bytes|] == bytes;
    }

    method FeedByte(b: byte)
      modifies this
      ensures state == ByteStep(old(state), b)
    {
      hide Widen;
      state := state ^ Widen(b);
      ghost var mixed := state;
      for bit := 0 to 8
        invariant state == BitSteps(mixed, bit)
      {
        var lowBitMask: bv32 := 0 - (state & 1);
        state := (state >> 1) ^ (REFLECTED_CASTAGNOLI_POLYNOMIAL & lowBitMask);
      }
    }

    method Finish() returns (checksum: nat)
      ensures checksum == (state ^ FINAL_XOR) as int
    {
      checksum := (state ^ FINAL_XOR) as int;
    }
  }

  /** The checksum of a frame: fed in two slices, skipping the checksum field itself. */
  method ChecksumOfSlices(first: seq<byte>, second: seq<byte>) returns (checksum: nat)
    ensures checksum == Checksum(first + second)
  {
    var accumulator := new Accumulator();
    accumulator.Feed(first);
    accumulator.Feed(second);
    checksum := accumulator.Finish();
    UpdateConcat(INITIAL_STATE, first, second);
  }

  lemma EightBits(state: bv32)
    ensures EightBitSteps(state) ==
            BitStep(BitStep(BitStep(BitStep(BitStep(BitStep(BitStep(BitStep(state))))))))
  {
    hide BitStep;
    assert BitSteps(state, 2) == BitStep(BitStep(state));
    assert BitSteps(state, 4) == BitStep(BitStep(BitSteps(state, 2)));
    assert BitSteps(state, 6) == BitStep(BitStep(BitSteps(state, 4)));
  }

  lemma EightMixed(state: bv32, word: bv32)
    ensures Mix(state, word) ==
            BitStep(BitStep(BitStep(BitStep(BitStep(BitStep(BitStep(BitStep(state ^ word))))))))
  {
    EightBits(state ^ word);
    hide BitStep;
  }

  lemma WordFromHalves(b: byte, b1: nat, b2: nat, b3: nat, b4: nat, b5: nat, b6: nat, b7: nat)
    requires b1 == b / 2 && b2 == b1 / 2 && b3 == b2 / 2 && b4 == b3 / 2 && b5 == b4 / 2 && b6 == b5 / 2 && b7 == b6 / 2
    ensures Widen(b) == Pack(Odd(b), Odd(b1), Odd(b2), Odd(b3), Odd(b4), Odd(b5), Odd(b6), Odd(b7))
  {
    hide Pack, Odd;
  }

  /** The ASCII digits 1 to 9 as words. */
  lemma DigitWords()
    ensures Widen(49) == 0x31
    ensures Widen(50) == 0x32
    ensures Widen(51) == 0x33
    ensures Widen(52) == 0x34
    ensures Widen(53) == 0x35
    ensures Widen(54) == 0x36
    ensures Widen(55) == 0x37
    ensures Widen(56) == 0x38
    ensures Widen(57) == 0x39
  {
    hide Widen;
    WordFromHalves(49, 24, 12, 6, 3, 1, 0, 0);
    WordFromHalves(50, 25, 12, 6, 3, 1, 0, 0);
    WordFromHalves(51, 25, 12, 6, 3, 1, 0, 0);
    WordFromHalves(52, 26, 13, 6, 3, 1, 0, 0);
    WordFromHalves(53, 26, 13, 6, 3, 1, 0, 0);
    WordFromHalves(54, 27, 13, 6, 3, 1, 0, 0);
    WordFromHalves(55, 27, 13, 6, 3, 1, 0, 0);
    WordFromHalves(56, 28, 14, 7, 3, 1, 0, 0);
    WordFromHalves(57, 28, 14, 7, 3, 1, 0, 0);
  }

  /** The states these digits lead through. */
  lemma DigitStates()
    ensures Mix(0xFFFFFFFF, 0x31) == 0x6F0A661C
    ensures Mix(0x6F0A661C, 0x32) == 0x8CAA3B9F
    ensures Mix(0x8CAA3B9F, 0x33) == 0xEF84D04D
    ensures Mix(0xEF84D04D, 0x34) == 0x09C50B11
    ensures Mix(0x09C50B11, 0x35) == 0xE72EDCCA
    ensures Mix(0xE72EDCCA, 0x36) == 0xBECA8E79
    ensures Mix(0xBECA8E79, 0x37) == 0xEDBD6815
    ensures Mix(0xEDBD6815, 0x38) == 0x9F787F65
    ensures Mix(0x9F787F65, 0x39) == 0x1CF96D7C
  {
    hide BitSteps;
    EightMixed(0xFFFFFFFF, 0x31);
    EightMixed(0x6F0A661C, 0x32);
    EightMixed(0x8CAA3B9F, 0x33);
    EightMixed(0xEF84D04D, 0x34);
    EightMixed(0x09C50B11, 0x35);
    EightMixed(0xE72EDCCA, 0x36);
    EightMixed(0xBECA8E79, 0x37);
    EightMixed(0xEDBD6815, 0x38);
    EightMixed(0x9F787F65, 0x39);
  }

  /** The published check value of the checksum. */
  lemma CheckValue()
    ensures Checksum([49, 50, 51, 52, 53, 54, 55, 56, 57]) == 0xE306_9283
  {
    hide Widen, Mix;
    DigitWords();
    DigitStates();
    var digits := [49, 50, 51, 52, 53, 54, 55, 56, 57];
    assert digits[..0] == [];
    StepOn(digits, 0);
    StepOn(digits, 1);
    StepOn(digits, 2);
    StepOn(digits, 3);
    StepOn(digits, 4);
    StepOn(digits, 5);
    StepOn(digits, 6);
    StepOn(digits, 7);
    StepOn(digits, 8);
    assert digits[..9] == digits;
  }

  lemma StepOn(bytes: seq<byte>, k: nat)
    requires k < |bytes|
    ensures Update(INITIAL_STATE, bytes[..k + 1]) == ByteStep(Update(INITIAL_STATE, bytes[..k]), bytes[k])
  {
    hide ByteStep;
    assert bytes[..k + 1][..k] == bytes[..k];
  }
}
