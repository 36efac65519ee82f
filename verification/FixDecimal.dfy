/** Exact parsing of decimal prices and quantities. */
module FixDecimal {
  import opened LittleEndian
  import opened Domain

  predicate IsDigit(c: char) {
    '0' <= c <= '9'
  }

  function DigitOf(c: char): nat
    requires IsDigit(c)
  {
    c as int - '0' as int
  }

  predicate AllDigits(text: string) {
    forall k | 0 <= k < |text| :: IsDigit(text[k])
  }

  predicate AllZeros(text: string) {
    forall k | 0 <= k < |text| :: text[k] == '0'
  }

  /** The number a string of digits denotes. */
  function Digits(text: string): nat
    requires AllDigits(text)
  {
    if text == [] then 0 else Digits(text[..|text| - 1]) * 10 + DigitOf(text[|text| - 1])
  }

  function Pow(n: nat): (p: nat)
    ensures p > 0
  {
    if n == 0 then 1 else Pow(n - 1) * 10
  }

  // ----- Arithmetic of digits

  lemma {:induction false} PowAdd(a: nat, b: nat)
    ensures Pow(a + b) == Pow(a) * Pow(b)
    decreases b
  {
    if b > 0 {
      PowAdd(a, b - 1);
      Regroup(Pow(a), Pow(b - 1), 10);
    }
  }

  lemma Regroup(x: int, y: int, z: int)
    ensures (x * y) * z == x * (y * z)
  {
  }

  lemma {:induction false} DigitsConcat(a: string, b: string)
    requires AllDigits(a) && AllDigits(b)
    ensures AllDigits(a + b)
    ensures Digits(a + b) == Digits(a) * Pow(|b|) + Digits(b)
    decreases |b|
  {
    if b == [] {
      assert a + b == a;
    } else {
      var front, last := b[..|b| - 1], b[|b| - 1];
      assert (a + b)[..|a + b| - 1] == a + front && (a + b)[|a + b| - 1] == last;
      DigitsConcat(a, front);
      Regroup(Digits(a), Pow(|front|), 10);
    }
  }

  lemma {:induction false} DigitsBound(text: string)
    requires AllDigits(text)
    ensures Digits(text) < Pow(|text|)
    ensures Digits(text) == 0 <==> AllZeros(text)
    decreases |text|
  {
    if text != [] {
      var front, last := text[..|text| - 1], text[|text| - 1];
      DigitsBound(front);
      assert text == front + [last];
      assert AllZeros(text) <==> AllZeros(front) && last == '0';
    }
  }

  lemma {:induction false} PowBound(n: nat)
    ensures n <= 19 ==> Pow(n) < U64_LIMIT
    ensures n >= 20 ==> Pow(n) >= U64_LIMIT
    decreases n
  {
    if n > 20 {
      PowBound(n - 1);
    } else {
      PowTable();
    }
  }

  lemma PowTable()
    ensures Pow(1) == 10 && Pow(2) == 100 && Pow(3) == 1000 && Pow(4) == 10000 && Pow(5) == 100000
    ensures Pow(6) == 1000000 && Pow(7) == 10000000 && Pow(8) == 100000000 && Pow(9) == 1000000000
    ensures Pow(10) == 10000000000 && Pow(11) == 100000000000 && Pow(12) == 1000000000000
    ensures Pow(13) == 10000000000000 && Pow(14) == 100000000000000 && Pow(15) == 1000000000000000
    ensures Pow(16) == 10000000000000000 && Pow(17) == 100000000000000000 && Pow(18) == 1000000000000000000
    ensures Pow(19) == 10000000000000000000 && Pow(20) == 100000000000000000000
    ensures Pow(0) == 1
  {
  }

  // ----- What a text denotes

  /** `text` is a decimal numeral with these whole and fractional digits; a point needs digits on both sides. */
  ghost predicate IsDecimal(text: string, whole: string, fraction: string) {
    && whole != [] && AllDigits(whole) && AllDigits(fraction)
    && ((text == whole && fraction == []) || (text == whole + ['.'] + fraction && fraction != []))
  }

  /** The numeral equals `k` ticks of `mantissa` / 10^`scale` each, as fractions. */
  ghost predicate EqualsTicks(whole: string, fraction: string, scale: nat, mantissa: nat, k: nat)
    requires AllDigits(whole) && AllDigits(fraction)
  {
    (Digits(whole) * Pow(|fraction|) + Digits(fraction)) * Pow(scale) == k * mantissa * Pow(|fraction|)
  }

  ghost predicate PriceIs(text: string, configuration: InstrumentConfiguration, k: nat) {
    && 1 <= k <= configuration.maxPrice
    && exists whole, fraction ::
         IsDecimal(text, whole, fraction) &&
         EqualsTicks(whole, fraction, configuration.priceScale, configuration.tickSizeMantissa, k)
  }

  ghost predicate QuantityIs(text: string, configuration: InstrumentConfiguration, q: nat) {
    && 1 <= q <= configuration.maxOrderQuantity && configuration.lotSize > 0 && q % configuration.lotSize == 0
    && exists whole, fraction :: IsDecimal(text, whole, fraction) && AllZeros(fraction) && Digits(whole) == q
  }

  /** The part of the fraction that the scale keeps, brought to the scale. */
  function ScaledFraction(fraction: string, scale: nat): nat
    requires AllDigits(fraction)
  {
    if |fraction| <= scale then Digits(fraction) * Pow(scale - |fraction|) else Digits(fraction[..scale])
  }

  predicate NothingBeyond(fraction: string, scale: nat) {
    |fraction| <= scale || AllZeros(fraction[scale..])
  }

  lemma CancelFactor(x: nat, y: nat, t: nat)
    requires t > 0
    ensures x * t == y * t <==> x == y
  {
    if x < y {
      MulLess(x, y, t);
    } else if y < x {
      MulLess(y, x, t);
    }
  }

  lemma MulLess(x: nat, y: nat, t: nat)
    requires x < y && t > 0
    ensures x * t < y * t && x * t + t <= y * t
  {
    assert (x + 1) * t == x * t + t;
    assert (x + 1) * t <= y * t by {
      MulMonotone(x + 1, y, t);
    }
  }

  lemma MulMonotone(x: nat, y: nat, t: nat)
    requires x <= y
    ensures x * t <= y * t
  {
    assert y * t == x * t + (y - x) * t by { SplitProduct(x, y - x, t); }
  }

  lemma SplitProduct(x: int, d: int, t: int)
    ensures (x + d) * t == x * t + d * t
  {
  }

  /** Comparing with a multiple of `q`, a remainder below `q` must vanish. */
  lemma RemainderVanishes(x: nat, r: nat, y: nat, q: nat)
    requires r < q
    ensures x * q + r == y * q <==> x == y && r == 0
  {
    if x < y {
      MulLess(x, y, q);
    } else if y < x {
      MulLess(y, x, q);
    }
  }

  /** Exact equality of fractions is equality of integers at the configured scale, with nothing beyond it. */
  lemma TicksAtScale(whole: string, fraction: string, scale: nat, mantissa: nat, k: nat)
    requires AllDigits(whole) && AllDigits(fraction)
    ensures EqualsTicks(whole, fraction, scale, mantissa, k) <==>
            && NothingBeyond(fraction, scale)
            && Digits(whole) * Pow(scale) + ScaledFraction(fraction, scale) == k * mantissa
  {
    if |fraction| <= scale {
      ShortFraction(whole, fraction, scale, mantissa, k);
    } else {
      LongFraction(whole, fraction, scale, mantissa, k);
    }
  }

  lemma ShortFraction(whole: string, fraction: string, scale: nat, mantissa: nat, k: nat)
    requires AllDigits(whole) && AllDigits(fraction) && |fraction| <= scale
    ensures EqualsTicks(whole, fraction, scale, mantissa, k) <==>
            Digits(whole) * Pow(scale) + ScaledFraction(fraction, scale) == k * mantissa
  {
    var f := |fraction|;
    var w, n, t, rest, target := Digits(whole), Digits(fraction), Pow(f), Pow(scale - f), k * mantissa;
    PowAdd(f, scale - f);
    hide Pow, Digits;
    ShortArithmetic(w, n, t, rest, target);
  }

  lemma ShortArithmetic(w: nat, n: nat, t: nat, rest: nat, target: nat)
    requires t > 0
    ensures (w * t + n) * (t * rest) == target * t <==> w * (t * rest) + n * rest == target
  {
    var x := w * t + n;
    assert x * (t * rest) == (x * rest) * t by { Regroup(x, rest, t); Commute(t, rest); }
    CancelFactor(x * rest, target, t);
    assert x * rest == w * (t * rest) + n * rest by { SplitProduct(w * t, n, rest); Regroup(w, t, rest); }
  }

  lemma Commute(x: int, y: int)
    ensures x * y == y * x
  {
  }

  lemma LongFraction(whole: string, fraction: string, scale: nat, mantissa: nat, k: nat)
    requires AllDigits(whole) && AllDigits(fraction) && |fraction| > scale
    ensures EqualsTicks(whole, fraction, scale, mantissa, k) <==>
            && AllZeros(fraction[scale..])
            && Digits(whole) * Pow(scale) + Digits(fraction[..scale]) == k * mantissa
  {
    hide Pow, Digits, AllZeros;
    var kept, beyond := fraction[..scale], fraction[scale..];
    assert fraction == kept + beyond;
    DigitsConcat(kept, beyond);
    DigitsBound(beyond);
    PowAdd(scale, |beyond|);
    var w, a, b, s, q, target := Digits(whole), Digits(kept), Digits(beyond), Pow(scale), Pow(|beyond|), k * mantissa;
    assert Digits(fraction) == a * q + b && Pow(|fraction|) == s * q;
    LongArithmetic(w, a, b, s, q, target);
    assert (w * Pow(|fraction|) + Digits(fraction)) * s == (w * (s * q) + (a * q + b)) * s;
    assert target * Pow(|fraction|) == target * (s * q);
  }

  lemma LongArithmetic(w: nat, a: nat, b: nat, s: nat, q: nat, target: nat)
    requires s > 0 && b < q
    ensures (w * (s * q) + (a * q + b)) * s == target * (s * q) <==> w * s + a == target && b == 0
  {
    var x := w * (s * q) + (a * q + b);
    assert target * (s * q) == (target * q) * s by { Regroup(target, q, s); Commute(s, q); }
    CancelFactor(x, target * q, s);
    assert x == (w * s + a) * q + b by { Regroup(w, s, q); SplitProduct(w * s, a, q); }
    RemainderVanishes(w * s + a, b, target, q);
  }

  // ----- The parsers

  datatype Parsed = Value(value: u64) | ValidationError | ConfigurationError

  method PowerOfTen(exponent: u32) returns (value: Option<u64>)
    ensures value == if exponent <= 19 then Some(Pow(exponent)) else None
  {
    PowTable();
    var v: u64 := 1;
    var index := 0;
    while index < exponent
      invariant 0 <= index <= exponent && index <= 19 && v == Pow(index)
    {
      PowBound(index + 1);
      if v > (U64_LIMIT - 1) / 10 {
        return None;
      }
      v := v * 10;
      index := index + 1;
    }
    value := Some(v);
  }

  lemma DigitsSnoc(text: string, i: nat)
    requires i < |text| && AllDigits(text[..i]) && IsDigit(text[i])
    ensures AllDigits(text[..i + 1]) && Digits(text[..i + 1]) == Digits(text[..i]) * 10 + DigitOf(text[i])
  {
    assert text[..i + 1][..i] == text[..i];
  }

  lemma {:induction false} PrefixIsSmaller(text: string, i: nat)
    requires AllDigits(text) && i <= |text|
    ensures AllDigits(text[..i]) && Digits(text[..i]) <= Digits(text)
  {
    hide Pow, Digits;
    assert text == text[..i] + text[i..];
    DigitsConcat(text[..i], text[i..]);
    TimesPositive(Digits(text[..i]), Pow(|text[i..]|));
  }

  lemma TimesPositive(x: nat, p: nat)
    requires p > 0
    ensures x * p >= x
  {
    SplitProduct(1, p - 1, x);
  }

  /** The number, if the text is one and does not exceed the maximum; no intermediate value overflows. */
  method ParseUnsignedWhole(text: string, maximum: u64) returns (parsed: Option<u64>)
    ensures parsed.Some? <==> text != [] && AllDigits(text) && Digits(text) <= maximum
    ensures parsed.Some? ==> parsed.value == Digits(text)
  {
    if text == [] {
      return None;
    }
    var value: u64 := 0;
    var i := 0;
    while i < |text|
      invariant 0 <= i <= |text| && AllDigits(text[..i]) && value == Digits(text[..i]) <= maximum
    {
      if !IsDigit(text[i]) {
        return None;
      }
      var digit := DigitOf(text[i]);
      DigitsSnoc(text, i);
      if value > maximum / 10 || (value == maximum / 10 && digit > maximum % 10) {
        if AllDigits(text) {
          PrefixIsSmaller(text, i + 1);
        }
        return None;
      }
      value := value * 10 + digit;
      i := i + 1;
    }
    assert text[..i] == text;
    parsed := Some(value);
  }

  // ----- Splitting at the decimal point

  function FindPoint(text: string, from: nat): (at: nat)
    requires from <= |text|
    ensures from <= at <= |text|
    ensures at < |text| ==> text[at] == '.'
    ensures forall k | from <= k < at :: text[k] != '.'
    decreases |text| - from
  {
    if from == |text| || text[from] == '.' then from else FindPoint(text, from + 1)
  }

  datatype Split = TwoPoints | EmptyPart | Parts(whole: string, fraction: string)

  /** Only one split of a text can make it a decimal numeral, since the point is not a digit. */
  ghost predicate OnlySplit(text: string, split: Split) {
    forall whole, fraction | IsDecimal(text, whole, fraction) :: split == Parts(whole, fraction)
  }

  lemma PointOfDecimal(text: string, whole: string, fraction: string)
    requires IsDecimal(text, whole, fraction)
    ensures FindPoint(text, 0) == |whole|
    ensures if fraction == [] then |whole| == |text|
            else |whole| < |text| && text[..|whole|] == whole && text[|whole| + 1..] == fraction
                 && FindPoint(text, |whole| + 1) == |text|
  {
    var at := FindPoint(text, 0);
    if fraction != [] {
      assert text[|whole|] == '.';
      assert forall k | 0 <= k < |whole| :: text[k] == whole[k] && IsDigit(whole[k]);
      forall k | |whole| + 1 <= k < |text|
        ensures IsDigit(text[k])
      {
        assert text[k] == fraction[k - |whole| - 1];
      }
    } else {
      assert at < |text| ==> IsDigit(text[at]);
    }
  }

  method SplitAtPoint(text: string) returns (split: Split)
    ensures OnlySplit(text, split)
    ensures split.Parts? ==>
              && split.whole != []
              && (AllDigits(split.whole) && AllDigits(split.fraction) ==> IsDecimal(text, split.whole, split.fraction))
  {
    var at := FindPoint(text, 0);
    forall whole, fraction | IsDecimal(text, whole, fraction)
      ensures at == |whole|
      ensures if fraction == [] then |whole| == |text|
              else |whole| < |text| && text[..|whole|] == whole && text[|whole| + 1..] == fraction
                   && FindPoint(text, |whole| + 1) == |text|
    {
      PointOfDecimal(text, whole, fraction);
    }
    if at < |text| && FindPoint(text, at + 1) < |text| {
      return TwoPoints;
    }
    var whole := text[..at];
    var fraction := if at == |text| then [] else text[at + 1..];
    if whole == [] || (at < |text| && fraction == []) {
      return EmptyPart;
    }
    if at == |text| {
      assert text == whole;
    } else {
      assert text == whole + ['.'] + fraction;
    }
    split := Parts(whole, fraction);
  }

  // ----- Prices

  predicate UsableTicks(configuration: InstrumentConfiguration) {
    && configuration.tickSizeMantissa > 0 && configuration.maxPrice * configuration.tickSizeMantissa < U64_LIMIT
    && configuration.priceScale <= 19
  }

  lemma KeptIsBelow(kept: string, more: nat)
    requires AllDigits(kept) && |kept| + more <= 19
    ensures Digits(kept) * Pow(more) < U64_LIMIT
  {
    hide Pow, Digits;
    DigitsBound(kept);
    PowAdd(|kept|, more);
    PowBound(|kept| + more);
    MulLess(Digits(kept), Pow(|kept|), Pow(more));
  }

  lemma PowOfNone()
    ensures Pow(0) == 1
  {
  }

  /** The fraction at the configured scale, if nothing is lost. */
  method ParseFraction(fraction: string, scale: nat) returns (parsed: Option<u64>)
    requires scale <= 19
    ensures parsed.Some? <==> AllDigits(fraction) && NothingBeyond(fraction, scale)
    ensures parsed.Some? ==> parsed.value == ScaledFraction(fraction, scale)
  {
    hide ScaledFraction, NothingBeyond;
    var fractional: u64 := 0;
    var retained := if |fraction| < scale then |fraction| else scale;
    var i := 0;
    while i < retained
      invariant 0 <= i <= retained && AllDigits(fraction[..i]) && fractional == Digits(fraction[..i])
    {
      if !IsDigit(fraction[i]) {
        return None;
      }
      DigitsSnoc(fraction, i);
      PowOfNone();
      KeptIsBelow(fraction[..i + 1], 0);
      fractional := fractional * 10 + DigitOf(fraction[i]);
      i := i + 1;
    }
    var kept := fraction[..retained];
    while i < scale
      invariant retained <= i && i <= scale && fractional == Digits(kept) * Pow(i - retained)
    {
      KeptIsBelow(kept, i + 1 - retained);
      Regroup(Digits(kept), Pow(i - retained), 10);
      fractional := fractional * 10;
      i := i + 1;
    }
    i := retained;
    while i < |fraction|
      invariant retained <= i <= |fraction| && AllZeros(fraction[retained..i])
    {
      if !IsDigit(fraction[i]) {
        return None;
      }
      if fraction[i] != '0' {
        NonZeroBeyond(fraction, retained, scale, i);
        return None;
      }
      assert fraction[retained..i + 1] == fraction[retained..i] + [fraction[i]];
      i := i + 1;
    }
    AllKept(fraction, retained, scale);
    parsed := Some(fractional);
  }

  lemma NonZeroBeyond(fraction: string, retained: nat, scale: nat, i: nat)
    requires retained == (if |fraction| < scale then |fraction| else scale) && retained <= i < |fraction|
    requires fraction[i] != '0'
    ensures !NothingBeyond(fraction, scale)
  {
    assert fraction[scale..][i - scale] == fraction[i];
  }

  lemma AllKept(fraction: string, retained: nat, scale: nat)
    requires retained == (if |fraction| < scale then |fraction| else scale)
    requires AllDigits(fraction[..retained]) && AllZeros(fraction[retained..|fraction|])
    ensures AllDigits(fraction) && NothingBeyond(fraction, scale)
    ensures ScaledFraction(fraction, scale) == Digits(fraction[..retained]) * Pow(scale - retained)
  {
    forall k | 0 <= k < |fraction|
      ensures IsDigit(fraction[k])
    {
      if k < retained {
        assert fraction[..retained][k] == fraction[k];
      } else {
        assert fraction[retained..|fraction|][k - retained] == fraction[k];
      }
    }
    if |fraction| <= scale {
      assert fraction[..retained] == fraction;
    } else {
      assert fraction[retained..|fraction|] == fraction[scale..];
    }
  }

  /**
   * A price is accepted exactly when the text denotes a whole number of ticks within range, and the value is that
   * number; every intermediate value stays within 64 bits.
   */
  method ParsePriceTicks(text: string, configuration: InstrumentConfiguration) returns (parsed: Parsed)
    ensures parsed.ConfigurationError? ==> !UsableTicks(configuration)
    ensures UsableTicks(configuration) ==>
              && (parsed.Value? ==> PriceIs(text, configuration, parsed.value))
              && (forall k: u64 | PriceIs(text, configuration, k) :: parsed == Value(k))
    ensures !UsableTicks(configuration) ==> !parsed.Value?
  {
    var split := SplitAtPoint(text);
    if !split.Parts? {
      return ValidationError;
    }
    var mantissa := configuration.tickSizeMantissa;
    if mantissa == 0 || configuration.maxPrice > (U64_LIMIT - 1) / mantissa {
      TooManyTicks(configuration);
      return ConfigurationError;
    }
    EnoughRoom(configuration.maxPrice, mantissa);
    var maxScaledPrice: u64 := configuration.maxPrice * mantissa;
    var factor := PowerOfTen(configuration.priceScale);
    if factor.None? {
      return ConfigurationError;
    }
    parsed := ParseScaled(text, split, configuration, maxScaledPrice, factor.value);
  }

  lemma EnoughRoom(max: u64, mantissa: u64)
    requires mantissa > 0 && max <= (U64_LIMIT - 1) / mantissa
    ensures max * mantissa < U64_LIMIT
  {
    MulMonotone(max, (U64_LIMIT - 1) / mantissa, mantissa);
    DivTimes(U64_LIMIT - 1, mantissa);
  }

  lemma DivTimes(x: nat, n: nat)
    requires n > 0
    ensures (x / n) * n <= x && x - (x / n) * n < n
  {
  }

  lemma TooManyTicks(configuration: InstrumentConfiguration)
    requires configuration.tickSizeMantissa == 0 ||
             configuration.maxPrice > (U64_LIMIT - 1) / configuration.tickSizeMantissa
    ensures !UsableTicks(configuration)
  {
    var mantissa := configuration.tickSizeMantissa;
    if mantissa > 0 {
      DivTimes(U64_LIMIT - 1, mantissa);
      MulLess((U64_LIMIT - 1) / mantissa, configuration.maxPrice, mantissa);
    }
  }

  method ParseScaled(text: string, split: Split, configuration: InstrumentConfiguration, maxScaledPrice: u64,
                     scaleFactor: u64)
    returns (parsed: Parsed)
    requires UsableTicks(configuration) && split.Parts? && OnlySplit(text, split) && split.whole != []
    requires AllDigits(split.whole) && AllDigits(split.fraction) ==> IsDecimal(text, split.whole, split.fraction)
    requires maxScaledPrice == configuration.maxPrice * configuration.tickSizeMantissa
    requires scaleFactor == Pow(configuration.priceScale)
    ensures !parsed.ConfigurationError?
    ensures parsed.Value? ==> PriceIs(text, configuration, parsed.value)
    ensures forall k: u64 | PriceIs(text, configuration, k) :: parsed == Value(k)
  {
    hide IsDecimal, Pow, Digits, EqualsTicks;
    var mantissa, scale := configuration.tickSizeMantissa, configuration.priceScale;
    var whole := ParseUnsignedWhole(split.whole, maxScaledPrice / scaleFactor);
    var fraction := ParseFraction(split.fraction, scale);
    forall k: u64 | PriceIs(text, configuration, k)
      ensures WithinSteps(split, configuration, maxScaledPrice, scaleFactor, k)
    {
      PriceImplies(text, split, configuration, maxScaledPrice, scaleFactor, k);
    }
    hide PriceIs;
    if whole.None? || fraction.None? {
      return ValidationError;
    }
    DivTimes(maxScaledPrice, scaleFactor);
    MulMonotone(whole.value, maxScaledPrice / scaleFactor, scaleFactor);
    var scaledWhole: u64 := whole.value * scaleFactor;
    if fraction.value > maxScaledPrice - scaledWhole {
      return ValidationError;
    }
    var scaledPrice: u64 := scaledWhole + fraction.value;
    if scaledPrice == 0 {
      return ValidationError;
    }
    if scaledPrice % mantissa != 0 {
      return ValidationError;
    }
    WholeTicks(text, split, configuration, scaledPrice, scaledPrice / mantissa);
    return Value(scaledPrice / mantissa);
  }

  /** Everything the parser checks about an acceptable price, and the value it computes. */
  ghost predicate WithinSteps(split: Split, configuration: InstrumentConfiguration, maxScaledPrice: nat,
                              scaleFactor: nat, k: nat)
    requires split.Parts?
  {
    && scaleFactor > 0 && configuration.tickSizeMantissa > 0
    && AllDigits(split.whole) && AllDigits(split.fraction) && NothingBeyond(split.fraction, configuration.priceScale)
    && Digits(split.whole) <= maxScaledPrice / scaleFactor
    && (var scaled := Digits(split.whole) * scaleFactor + ScaledFraction(split.fraction, configuration.priceScale);
        && 0 < scaled <= maxScaledPrice
        && scaled % configuration.tickSizeMantissa == 0 && scaled / configuration.tickSizeMantissa == k)
  }

  lemma PriceImplies(text: string, split: Split, configuration: InstrumentConfiguration, maxScaledPrice: nat,
                     scaleFactor: nat, k: nat)
    requires UsableTicks(configuration) && split.Parts? && OnlySplit(text, split)
    requires maxScaledPrice == configuration.maxPrice * configuration.tickSizeMantissa
    requires scaleFactor == Pow(configuration.priceScale) && PriceIs(text, configuration, k)
    ensures WithinSteps(split, configuration, maxScaledPrice, scaleFactor, k)
  {
    hide Pow, Digits, EqualsTicks, ScaledFraction;
    var mantissa, scale := configuration.tickSizeMantissa, configuration.priceScale;
    var whole, fraction :| IsDecimal(text, whole, fraction) && EqualsTicks(whole, fraction, scale, mantissa, k);
    assert split == Parts(whole, fraction);
    TicksAtScale(whole, fraction, scale, mantissa, k);
    var scaled := Digits(whole) * scaleFactor + ScaledFraction(fraction, scale);
    MulMonotone(k, configuration.maxPrice, mantissa);
    TimesPositive(mantissa, k);
    MultipleDivides(k, mantissa);
    QuotientBound(Digits(whole), scaleFactor, maxScaledPrice);
  }

  lemma MultipleDivides(k: nat, m: nat)
    requires m > 0
    ensures (k * m) % m == 0 && (k * m) / m == k
  {
    var x := k * m;
    DivTimes(x, m);
    var q, r := x / m, x % m;
    assert x == q * m + r;
    RemainderVanishes(q, r, k, m);
  }

  lemma QuotientBound(w: nat, s: nat, max: nat)
    requires s > 0 && w * s <= max
    ensures w <= max / s
  {
    DivTimes(max, s);
    if max / s < w {
      MulLess(max / s, w, s);
    }
  }

  /** A scaled price that is a multiple of the tick is that many ticks. */
  lemma WholeTicks(text: string, split: Split, configuration: InstrumentConfiguration, scaled: nat, k: nat)
    requires UsableTicks(configuration) && split.Parts?
    requires AllDigits(split.whole) && AllDigits(split.fraction) && IsDecimal(text, split.whole, split.fraction)
    requires NothingBeyond(split.fraction, configuration.priceScale)
    requires scaled == Digits(split.whole) * Pow(configuration.priceScale) +
                       ScaledFraction(split.fraction, configuration.priceScale)
    requires 0 < scaled <= configuration.maxPrice * configuration.tickSizeMantissa
    requires scaled % configuration.tickSizeMantissa == 0 && k == scaled / configuration.tickSizeMantissa
    ensures PriceIs(text, configuration, k)
  {
    hide Pow, Digits, EqualsTicks, ScaledFraction, IsDecimal;
    var mantissa, scale := configuration.tickSizeMantissa, configuration.priceScale;
    ExactQuotient(scaled, mantissa);
    TicksAtScale(split.whole, split.fraction, scale, mantissa, k);
    if k > configuration.maxPrice {
      MulLess(configuration.maxPrice, k, mantissa);
    }
  }

  lemma ExactQuotient(x: nat, m: nat)
    requires m > 0 && x % m == 0
    ensures (x / m) * m == x
  {
  }

  // ----- Quantities

  /** A quantity is accepted exactly when the text denotes a positive whole number of lots within range. */
  method ParseQuantityUnits(text: string, configuration: InstrumentConfiguration) returns (parsed: Parsed)
    ensures !parsed.ConfigurationError?
    ensures parsed.Value? ==> QuantityIs(text, configuration, parsed.value)
    ensures forall q: u64 | QuantityIs(text, configuration, q) :: parsed == Value(q)
  {
    var split := SplitAtPoint(text);
    if !split.Parts? {
      return ValidationError;
    }
    hide Digits;
    forall q: u64 | QuantityIs(text, configuration, q)
      ensures AllZeros(split.fraction) && AllDigits(split.whole) && Digits(split.whole) == q
    {
      var whole, fraction :| IsDecimal(text, whole, fraction) && AllZeros(fraction) && Digits(whole) == q;
      assert split == Parts(whole, fraction);
    }
    var i := 0;
    while i < |split.fraction|
      invariant 0 <= i <= |split.fraction| && AllZeros(split.fraction[..i])
    {
      if split.fraction[i] != '0' {
        return ValidationError;
      }
      assert split.fraction[..i + 1] == split.fraction[..i] + [split.fraction[i]];
      i := i + 1;
    }
    assert split.fraction[..i] == split.fraction;
    var quantity := ParseUnsignedWhole(split.whole, configuration.maxOrderQuantity);
    if quantity.None? || quantity.value == 0 || configuration.lotSize == 0 ||
       quantity.value % configuration.lotSize != 0
    {
      return ValidationError;
    }
    parsed := Value(quantity.value);
  }
}
