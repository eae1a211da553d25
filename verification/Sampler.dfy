/**
 The trace sampler: a ratio becomes a 64-bit threshold, computed in two halves,
 and a trace is kept when the first eight bytes of its id do not exceed it.

 Doubles are reals, and every operation on them ends in `round`, of which three
 things are used that hold for rounding to the nearest double (section 4.3.1 of
 IEEE 754): it is monotone, keeps integers of 53 bits, and errs by a 2^53rd part
 at most.  Exact arithmetic is the instance `Exact`.
 */
module Sampler {

  const TWO32: int := 0x1_0000_0000
  const TWO53: int := 0x20_0000_0000_0000
  const TWO64: int := 0x1_0000_0000_0000_0000

  type Word64 = x: int | 0 <= x < TWO64 witness 0

  const UINT64_MAX: Word64 := TWO64 - 1

  function Abs(x: real): real {
    if x < 0.0 then -x else x
  }

  /** From 0 to 2^64; no other numbers come up. */
  predicate Small(x: real) {
    0.0 <= x <= 18446744073709551616.0
  }

  ghost predicate Monotone(round: real -> real) {
    forall x, y :: Small(x) && Small(y) && x <= y ==> round(x) <= round(y)
  }

  ghost predicate KeepsIntegers(round: real -> real) {
    forall x: real :: x == x.Floor as real && 0 <= x.Floor <= TWO53 ==> round(x) == x
  }

  /** The error of a number of 53 bits is a 2^53rd part of it, and less than that of 1 near 0. */
  ghost predicate Precise(round: real -> real) {
    forall x :: Small(x) ==> Abs(round(x) - x) * 9007199254740992.0 <= x + 1.0
  }

  ghost predicate IsRounding(round: real -> real) {
    Monotone(round) && KeepsIntegers(round) && Precise(round)
  }

  function Exact(x: real): real {
    x
  }

  /** What becomes the high 32 bits, and what is added to them. */
  function HighBits(round: real -> real, ratio: real): int {
    round(4294967295.0 * ratio).Floor
  }

  function LowBits(round: real -> real, ratio: real): real {
    var product := round(4294967295.0 * ratio);
    round((product - product.Floor as real) * 4294967296.0 + product)
  }

  /** The halves are added as 64-bit numbers. */
  function CalculateThreshold(round: real -> real, ratio: real): Word64 {
    if ratio <= 0.0 then 0
    else if ratio >= 1.0 then UINT64_MAX
    else (HighBits(round, ratio) * TWO32 % TWO64 + LowBits(round, ratio).Floor) % TWO64
  }

  /** The word as a ratio: two conversions to double and a division, whose divisor is not 0 (`RatioInRange`). */
  function RatioOf(round: real -> real, word: Word64): real {
    var all := round(UINT64_MAX as real);
    if all == 0.0 then 0.0 else round(round(word as real) / all)
  }

  /** The word is made a ratio and sent through the same function. */
  function ThresholdFromBuffer(round: real -> real, word: Word64): Word64 {
    CalculateThreshold(round, RatioOf(round, word))
  }

  datatype Attribute = Attribute(key: string, value: string)

  /** Calls back for one attribute after the other until a call returns false. */
  function ForEachKeyValue(attributes: seq<Attribute>, callback: Attribute -> bool): bool {
    attributes == [] || (callback(attributes[0]) && ForEachKeyValue(attributes[1..], callback))
  }

  function CheckIfForceSampling(attributes: seq<Attribute>): bool {
    !ForEachKeyValue(attributes, _ => true)
  }

  /** True for RECORD_AND_SAMPLE. */
  predicate ShouldSample(round: real -> real, ratio: real, word: Word64, attributes: seq<Attribute>) {
    var threshold := CalculateThreshold(round, ratio);
    threshold != 0 && (CheckIfForceSampling(attributes) || ThresholdFromBuffer(round, word) <= threshold)
  }

  lemma {:induction false} NeverForced(attributes: seq<Attribute>)
    ensures !CheckIfForceSampling(attributes)
  {
    if attributes != [] {
      NeverForced(attributes[1..]);
    }
  }

  // ---------------------------------------------------------------- whatever the rounding

  lemma ExactRounds()
    ensures IsRounding(Exact)
  {
  }

  /** A real at most an integer rounds to at most that integer, and the other way round. */
  lemma RoundBelow(round: real -> real, x: real, n: int)
    requires IsRounding(round) && Small(x) && 0 <= n <= TWO53
    ensures x <= n as real ==> round(x) <= n as real
    ensures n as real <= x ==> n as real <= round(x)
  {
    assert round(n as real) == n as real;
  }

  /** The halves: the high one has 32 bits, and the low one is between it and a carry more. */
  lemma HalvesBounds(round: real -> real, ratio: real)
    requires IsRounding(round) && 0.0 < ratio < 1.0
    ensures
      var hi, lo := HighBits(round, ratio), LowBits(round, ratio);
      && 0 <= hi < TWO32 && hi <= lo.Floor <= TWO32 + hi + 1
      && (hi == TWO32 - 1 ==> lo.Floor == hi)
  {
    var product := round(4294967295.0 * ratio);
    var hi := product.Floor;
    RoundBelow(round, 4294967295.0 * ratio, 0);
    RoundBelow(round, 4294967295.0 * ratio, TWO32 - 1);
    var sum := (product - hi as real) * 4294967296.0 + product;
    RoundBelow(round, sum, hi);
    RoundBelow(round, sum, TWO32 + hi + 1);
  }

  /** Nothing overflows: the threshold is the halves put together, as integers. */
  lemma NoOverflow(round: real -> real, ratio: real)
    requires IsRounding(round) && 0.0 < ratio < 1.0
    ensures 0 <= HighBits(round, ratio) * TWO32 < TWO64 && 0.0 <= LowBits(round, ratio)
    ensures
      CalculateThreshold(round, ratio) == HighBits(round, ratio) * TWO32 + LowBits(round, ratio).Floor < TWO64
  {
    HalvesBounds(round, ratio);
    InRange(HighBits(round, ratio) * TWO32, LowBits(round, ratio).Floor);
  }

  lemma InRange(a: int, b: int)
    requires 0 <= a < TWO64 && 0 <= a + b < TWO64
    ensures (a % TWO64 + b) % TWO64 == a + b
  {
  }

  /** Where the high half moves up, the low half falls by less than it gained. */
  lemma CarryIsEnough(round: real -> real, low: real, high: real)
    requires IsRounding(round) && 0.0 < low <= high < 1.0
    requires HighBits(round, low) < HighBits(round, high)
    ensures LowBits(round, low).Floor <= TWO32 + HighBits(round, high)
  {
    var product := round(4294967295.0 * low);
    var sum := (product - product.Floor as real) * 4294967296.0 + product;
    HalvesBounds(round, high);
    HalvesBounds(round, low);
    RoundBelow(round, sum, TWO32 + HighBits(round, high));
  }

  lemma LowBitsMonotone(round: real -> real, low: real, high: real)
    requires IsRounding(round) && 0.0 < low <= high < 1.0 && HighBits(round, low) == HighBits(round, high)
    ensures LowBits(round, low).Floor <= LowBits(round, high).Floor
  {
    var p, q := round(4294967295.0 * low), round(4294967295.0 * high);
    RoundBelow(round, 4294967295.0 * low, 0);
    RoundBelow(round, 4294967295.0 * high, TWO32 - 1);
    assert p <= q;
    var hi := p.Floor as real;
    assert (p - hi) * 4294967296.0 + p <= (q - hi) * 4294967296.0 + q;
    assert LowBits(round, low) <= LowBits(round, high);
  }

  lemma HalvesMonotone(round: real -> real, low: real, high: real)
    requires IsRounding(round) && 0.0 < low <= high < 1.0
    ensures
      HighBits(round, low) * TWO32 + LowBits(round, low).Floor <=
      HighBits(round, high) * TWO32 + LowBits(round, high).Floor
  {
    HalvesBounds(round, high);
    var a, b := HighBits(round, low), HighBits(round, high);
    assert a <= b by {
      assert Small(4294967295.0 * low) && Small(4294967295.0 * high);
    }
    if a == b {
      LowBitsMonotone(round, low, high);
    } else {
      CarryIsEnough(round, low, high);
    }
  }

  /** A larger ratio has no smaller threshold. */
  lemma ThresholdMonotone(round: real -> real, low: real, high: real)
    requires IsRounding(round) && low <= high
    ensures CalculateThreshold(round, low) <= CalculateThreshold(round, high)
  {
    if 0.0 < low && high < 1.0 {
      NoOverflow(round, low);
      NoOverflow(round, high);
      HalvesMonotone(round, low, high);
    }
  }

  /** Raising the ratio never drops a trace that was kept before. */
  lemma RaisingKeeps(round: real -> real, low: real, high: real, word: Word64, attributes: seq<Attribute>)
    requires IsRounding(round) && low <= high && ShouldSample(round, low, word, attributes)
    ensures ShouldSample(round, high, word, attributes)
  {
    ThresholdMonotone(round, low, high);
  }

  lemma RatioInRange(round: real -> real, word: Word64)
    requires IsRounding(round)
    ensures
      var a, all := round(word as real), round(UINT64_MAX as real);
      0.0 <= a <= all && all > 0.0 && 0.0 <= a / all <= 1.0 && 0.0 <= RatioOf(round, word) <= 1.0
  {
    var a, all := round(word as real), round(UINT64_MAX as real);
    RoundBelow(round, word as real, 0);
    RoundBelow(round, UINT64_MAX as real, 1);
    QuotientInRange(a, all);
    RoundBelow(round, a / all, 0);
    RoundBelow(round, a / all, 1);
  }

  lemma QuotientInRange(a: real, b: real)
    requires 0.0 <= a <= b && b > 0.0
    ensures 0.0 <= a / b <= 1.0
  {
  }

  lemma QuotientMonotone(a: real, b: real, c: real)
    requires a <= b && c > 0.0
    ensures a / c <= b / c
  {
  }

  lemma RatioMonotone(round: real -> real, word: Word64, larger: Word64)
    requires IsRounding(round) && word <= larger
    ensures RatioOf(round, word) <= RatioOf(round, larger)
  {
    RatioInRange(round, word);
    RatioInRange(round, larger);
    QuotientMonotone(round(word as real), round(larger as real), round(UINT64_MAX as real));
  }

  /** The kept words are an initial part of all words. */
  lemma SmallerIsKept(round: real -> real, ratio: real, word: Word64, larger: Word64, attributes: seq<Attribute>)
    requires IsRounding(round) && word <= larger && ShouldSample(round, ratio, larger, attributes)
    ensures ShouldSample(round, ratio, word, attributes)
  {
    NeverForced(attributes);
    RatioMonotone(round, word, larger);
    ThresholdMonotone(round, RatioOf(round, word), RatioOf(round, larger));
  }

  // ---------------------------------------------------------------- how far rounding can move things

  function Clamp(ratio: real): real {
    if ratio <= 0.0 then 0.0 else if ratio >= 1.0 then 1.0 else ratio
  }

  /** The ratio's share of 2^64 - 1. */
  function Share(ratio: real): real {
    Clamp(ratio) * 18446744073709551615.0
  }

  lemma Error(round: real -> real, x: real, bound: real)
    requires Precise(round) && Small(x) && x + 1.0 <= bound * 9007199254740992.0
    ensures x - bound <= round(x) <= x + bound
  {
    assert Abs(round(x) - x) * 9007199254740992.0 <= x + 1.0;
    assert Abs(round(x) - x) <= bound;
  }

  lemma ProductNear(round: real -> real, ratio: real)
    requires IsRounding(round) && 0.0 < ratio < 1.0
    ensures
      var product := round(4294967295.0 * ratio);
      && 0.0 <= product <= 4294967295.0
      && -1.0 / 2097152.0 <= product - 4294967295.0 * ratio <= 1.0 / 2097152.0
  {
    var x := 4294967295.0 * ratio;
    RoundBelow(round, x, 0);
    RoundBelow(round, x, TWO32 - 1);
    Error(round, x, 1.0 / 2097152.0);
  }

  lemma SumNear(round: real -> real, product: real)
    requires IsRounding(round) && 0.0 <= product <= 4294967295.0
    ensures
      var sum := (product - product.Floor as real) * 4294967296.0 + product;
      -1.0 / 1048576.0 <= round(sum) - sum <= 1.0 / 1048576.0
  {
    var sum := (product - product.Floor as real) * 4294967296.0 + product;
    assert 0.0 <= sum <= 8589934591.0;
    Error(round, sum, 1.0 / 1048576.0);
  }

  lemma HalvesNearShare(round: real -> real, ratio: real)
    requires IsRounding(round) && 0.0 < ratio < 1.0
    ensures
      var threshold := HighBits(round, ratio) * TWO32 + LowBits(round, ratio).Floor;
      Abs(threshold as real - ratio * 18446744073709551615.0) < 2050.0
  {
    var product := round(4294967295.0 * ratio);
    ProductNear(round, ratio);
    SumNear(round, product);
    HalvesNear(ratio, product, LowBits(round, ratio), HighBits(round, ratio) * TWO32 + LowBits(round, ratio).Floor);
  }

  /** The threshold is the ratio's share, but for 2050. */
  lemma ThresholdNearShare(round: real -> real, ratio: real)
    requires IsRounding(round)
    ensures Abs(CalculateThreshold(round, ratio) as real - Share(ratio)) < 2050.0
  {
    if 0.0 < ratio < 1.0 {
      NoOverflow(round, ratio);
      HalvesNearShare(round, ratio);
    }
  }

  lemma HalvesNear(ratio: real, product: real, lo: real, threshold: int)
    requires 0.0 < ratio < 1.0 && threshold == product.Floor * TWO32 + lo.Floor
    requires -1.0 / 2097152.0 <= product - 4294967295.0 * ratio <= 1.0 / 2097152.0
    requires
      var sum := (product - product.Floor as real) * 4294967296.0 + product;
      -1.0 / 1048576.0 <= lo - sum <= 1.0 / 1048576.0
    ensures Abs(threshold as real - ratio * 18446744073709551615.0) < 2050.0
  {
    var sum := (product - product.Floor as real) * 4294967296.0 + product;
    assert threshold as real == product.Floor as real * 4294967296.0 + lo.Floor as real;
    assert product.Floor as real * 4294967296.0 + sum == product * 4294967297.0;
  }

  /** A quotient of numbers each of which is off by 2048 at most. */
  lemma QuotientNear(a: real, w: real, all: real, m: real)
    requires 0.0 <= a <= all && all > 0.0
    requires -2048.0 <= a - w <= 2048.0 && -2048.0 <= all - m <= 2048.0
    ensures -4096.0 <= a / all * m - w <= 4096.0
  {
    var q := a / all;
    QuotientInRange(a, all);
    assert q * all == a;
    assert q * m - w == q * (m - all) + (a - w);
    ScaleDown(q, m - all);
  }

  lemma ScaleDown(q: real, d: real)
    requires 0.0 <= q <= 1.0 && -2048.0 <= d <= 2048.0
    ensures -2048.0 <= q * d <= 2048.0
  {
    if d >= 0.0 {
      assert 0.0 <= q * d <= 1.0 * d;
    } else {
      assert 0.0 <= q * (-d) <= 1.0 * (-d);
      assert q * d == -(q * (-d));
    }
  }

  lemma RatioNear(round: real -> real, word: Word64)
    requires IsRounding(round)
    ensures -8192.0 <= RatioOf(round, word) * 18446744073709551615.0 - word as real <= 8192.0
  {
    var a, all := round(word as real), round(UINT64_MAX as real);
    RatioInRange(round, word);
    var q, r := a / all, RatioOf(round, word);
    Error(round, word as real, 2048.0);
    Error(round, UINT64_MAX as real, 2048.0);
    assert UINT64_MAX as real == 18446744073709551615.0;
    QuotientNear(a, word as real, all, 18446744073709551615.0);
    Error(round, q, 1.0 / 4503599627370496.0);
    Scaled(q, r, word as real);
  }

  lemma Scaled(q: real, r: real, w: real)
    requires -1.0 / 4503599627370496.0 <= r - q <= 1.0 / 4503599627370496.0
    requires -4096.0 <= q * 18446744073709551615.0 - w <= 4096.0
    ensures -8192.0 <= r * 18446744073709551615.0 - w <= 8192.0
  {
  }

  /** A word of a trace id comes back from the conversion, but for 10242. */
  lemma WordNearlySurvives(round: real -> real, word: Word64)
    requires IsRounding(round)
    ensures Abs(ThresholdFromBuffer(round, word) as real - word as real) < 10242.0
  {
    RatioInRange(round, word);
    RatioNear(round, word);
    ThresholdNearShare(round, RatioOf(round, word));
  }

  const SLACK: int := 0x4000

  /** Words below the share by the slack are kept, words above it by the slack are not. */
  lemma SampledNear(round: real -> real, ratio: real, word: Word64, attributes: seq<Attribute>)
    requires IsRounding(round)
    ensures (word + SLACK) as real <= Share(ratio) ==> ShouldSample(round, ratio, word, attributes)
    ensures (word - SLACK) as real >= Share(ratio) ==> !ShouldSample(round, ratio, word, attributes)
  {
    ThresholdNearShare(round, ratio);
    WordNearlySurvives(round, word);
    NeverForced(attributes);
  }

  function Count(kept: nat -> bool, n: nat): nat {
    if n == 0 then 0 else Count(kept, n - 1) + if kept(n - 1) then 1 else 0
  }

  function Keeps(round: real -> real, ratio: real, attributes: seq<Attribute>): nat -> bool {
    (w: nat) => w < TWO64 && ShouldSample(round, ratio, w, attributes)
  }

  /** The number of words that are sampled. */
  function Sampled(round: real -> real, ratio: real, attributes: seq<Attribute>): nat {
    Count(Keeps(round, ratio, attributes), TWO64)
  }

  lemma {:induction false} CountNear(kept: nat -> bool, share: real, n: nat)
    requires forall w: nat :: w < n && (w + SLACK) as real <= share ==> kept(w)
    requires forall w: nat :: w < n && (w - SLACK) as real >= share ==> !kept(w)
    requires share >= 0.0
    ensures Count(kept, n) <= n && Count(kept, n) as real <= share + SLACK as real + 1.0
    ensures Count(kept, n) as real >= share - SLACK as real || Count(kept, n) == n
  {
    if n > 0 {
      CountNear(kept, share, n - 1);
      assert (n - 1 + SLACK) as real <= share ==> kept(n - 1);
      assert (n - 1 - SLACK) as real >= share ==> !kept(n - 1);
    }
  }

  /** Of all 2^64 words the ratio's share is kept, but for the slack. */
  lemma {:induction false} ShareIsNearlyKept(round: real -> real, ratio: real, attributes: seq<Attribute>)
    requires IsRounding(round)
    ensures Abs(Sampled(round, ratio, attributes) as real - Share(ratio)) <= SLACK as real + 1.0
  {
    var kept := Keeps(round, ratio, attributes);
    forall w: nat | w < TWO64
      ensures (w + SLACK) as real <= Share(ratio) ==> kept(w)
      ensures (w - SLACK) as real >= Share(ratio) ==> !kept(w)
    {
      SampledNear(round, ratio, w, attributes);
    }
    assert 0.0 <= Share(ratio) <= 18446744073709551615.0;
    CountNear(kept, Share(ratio), TWO64);
  }

  /** The conversions of doubles, which turn one word into another: 2^63 + 1 comes back as 2^63 - 1. */
  lemma WordCanChange(round: real -> real)
    requires round(9223372036854775809.0) == 9223372036854775808.0
    requires round(18446744073709551615.0) == 18446744073709551616.0
    requires round(0.5) == 0.5 && round(2147483647.5) == 2147483647.5 && round(4294967295.5) == 4294967295.5
    ensures ThresholdFromBuffer(round, 0x8000_0000_0000_0001) == 0x7fff_ffff_ffff_ffff
  {
    var word: Word64 := 0x8000_0000_0000_0001;
    assert word as real == 9223372036854775809.0 && UINT64_MAX as real == 18446744073709551615.0;
    assert 9223372036854775808.0 / 18446744073709551616.0 == 0.5;
    assert RatioOf(round, word) == 0.5;
    assert HighBits(round, 0.5) == 2147483647 && LowBits(round, 0.5).Floor == 4294967295;
  }

  // ---------------------------------------------------------------- without rounding

  lemma FloorShift(n: int, x: real)
    ensures (n as real + x).Floor == n + x.Floor
  {
  }

  /** In exact arithmetic the halves make up the whole product. */
  lemma HalvesMakeProduct(ratio: real)
    requires 0.0 < ratio < 1.0
    ensures
      (HighBits(Exact, ratio) * TWO32) as real + LowBits(Exact, ratio) == ratio * 18446744073709551615.0
  {
    var hi := HighBits(Exact, ratio);
    assert (hi * TWO32) as real == hi as real * 4294967296.0;
  }

  /** In exact arithmetic the threshold is the ratio's share, rounded down. */
  lemma ThresholdIsShare(ratio: real)
    ensures CalculateThreshold(Exact, ratio) == Share(ratio).Floor
  {
    if 0.0 < ratio < 1.0 {
      ExactRounds();
      HalvesMakeProduct(ratio);
      NoOverflow(Exact, ratio);
      FloorShift(HighBits(Exact, ratio) * TWO32, LowBits(Exact, ratio));
      assert UINT64_MAX as real == 18446744073709551615.0;
    }
  }

  /** And a word of a trace id comes back from the conversion unchanged. */
  lemma WordSurvives(word: Word64)
    ensures ThresholdFromBuffer(Exact, word) == word
  {
    var ratio := RatioOf(Exact, word);
    assert 0.0 <= ratio <= 1.0;
    assert ratio * UINT64_MAX as real == word as real;
    ThresholdIsShare(ratio);
  }

  /** What is sampled then: nothing below one part in 2^64 - 1, and otherwise the words up to the share. */
  lemma SampledIff(ratio: real, word: Word64, attributes: seq<Attribute>)
    ensures ShouldSample(Exact, ratio, word, attributes) <==> Share(ratio) >= 1.0 && word as real <= Share(ratio)
  {
    ThresholdIsShare(ratio);
    WordSurvives(word);
    NeverForced(attributes);
  }

  lemma {:induction false} CountBelow(kept: nat -> bool, t: nat, n: nat)
    requires forall w: nat :: w < n ==> (kept(w) <==> w < t)
    ensures Count(kept, n) == if n <= t then n else t
  {
    if n > 0 {
      CountBelow(kept, t, n - 1);
    }
  }

  /** Then the ratio's share of all 2^64 words is kept to within one; none for a ratio below 1 / (2^64 - 1). */
  lemma {:induction false} ShareIsKept(ratio: real, attributes: seq<Attribute>)
    ensures
      var share, kept := Share(ratio), Sampled(Exact, ratio, attributes) as real;
      if share < 1.0 then kept == 0.0 else share < kept <= share + 1.0
  {
    var kept, share := Keeps(Exact, ratio, attributes), Share(ratio);
    assert 0.0 <= share <= 18446744073709551615.0;
    var t := if share < 1.0 then 0 else share.Floor + 1;
    forall w: nat | w < TWO64 ensures kept(w) <==> w < t {
      SampledIff(ratio, w, attributes);
    }
    CountBelow(kept, t, TWO64);
  }
}
