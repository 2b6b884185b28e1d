/** The two forms of exponential backoff: a shift in 64-bit arithmetic for the websocket
    client, a loop in floating point with an early exit for the streams. */
module Backoffs {
  import opened Roundings

  const TWO_52 := 0x10_0000_0000_0000
  const TWO_53 := 0x20_0000_0000_0000
  const TWO_62 := 0x4000_0000_0000_0000
  const TWO_63 := 0x8000_0000_0000_0000
  const TWO_64 := 0x1_0000_0000_0000_0000
  const MAX_INT64 := TWO_63 - 1
  const MIN_INT64 := -TWO_63
  const SECOND := 1_000_000_000

  function Min(a: int, b: int): int {
    if a <= b then a else b
  }

  // ----- powers of two

  function Pow2(n: nat): (p: nat)
    ensures p >= 1
  {
    if n == 0 then 1 else 2 * Pow2(n - 1)
  }

  lemma DoubleFactor(x: int, y: int)
    ensures x * (2 * y) == 2 * (x * y) == (2 * x) * y
  {
  }

  lemma {:induction false} Pow2Sum(a: nat, b: nat)
    ensures Pow2(a + b) == Pow2(a) * Pow2(b)
    decreases b
  {
    if b > 0 {
      Pow2Sum(a, b - 1);
      DoubleFactor(Pow2(a), Pow2(b - 1));
    }
  }

  lemma {:induction false} Pow2Grows(a: nat, b: nat)
    requires a <= b
    ensures Pow2(a) <= Pow2(b)
    decreases b
  {
    if a < b {
      Pow2Grows(a, b - 1);
    }
  }

  lemma Pow2Values()
    ensures Pow2(33) == 0x2_0000_0000 && Pow2(34) == 0x4_0000_0000 && Pow2(63) == TWO_63
  {
    assert Pow2(8) == 0x100;
    assert Pow2(16) == 0x1_0000 by { Pow2Sum(8, 8); }
    assert Pow2(32) == 0x1_0000_0000 by { Pow2Sum(16, 16); }
    assert Pow2(31) == 0x8000_0000;
    Pow2Sum(32, 31);
  }

  lemma ProductAtLeast(a: int, b: int)
    requires a >= 0 && b >= 1
    ensures a * b >= a
  {
    assert a * (b - 1) >= 0;
  }

  lemma ProductGrows(a: int, b: int, c: int)
    requires a >= 0 && b <= c
    ensures a * b <= a * c
  {
    assert a * (c - b) >= 0;
  }

  // ----- floating point

  /** The integers that a 64-bit floating-point number holds exactly: at most 53 significant
      bits, followed by zeros. */
  predicate Representable(w: int)
    decreases w
  {
    0 <= w && (w < TWO_53 || (w % 2 == 0 && Representable(w / 2)))
  }

  lemma DoubledRepresentable(w: int)
    requires Representable(w)
    ensures Representable(2 * w)
  {
    assert 2 * w / 2 == w;
  }

  /** What is used of rounding to floating point: it keeps order, leaves the representable
      integers alone, and from 2^53 on yields only these. Rounding to nearest, ties to even,
      is of this kind. */
  ghost predicate IsRounding(round: Rounding) {
    && Monotone(round)
    && (forall w: int :: Representable(w) ==> round(w as real) == w as real)
    && (forall x: real :: x >= TWO_53 as real ==> RoundsToWhole(round, x))
  }

  ghost predicate RoundsToWhole(round: Rounding, x: real) {
    round(x) == round(x).Floor as real && Representable(round(x).Floor)
  }

  /** Rounding down to a representable integer. */
  function RoundedDown(w: nat): (r: nat)
    ensures r <= w && Representable(r)
    ensures Representable(w) ==> r == w
    ensures w >= TWO_52 ==> r >= TWO_52
  {
    if w < TWO_53 then w
    else
      DoubledRepresentable(RoundedDown(w / 2));
      2 * RoundedDown(w / 2)
  }

  lemma {:induction false} RoundedDownGrows(v: nat, w: nat)
    requires v <= w
    ensures RoundedDown(v) <= RoundedDown(w)
    decreases w
  {
    if v >= TWO_53 {
      RoundedDownGrows(v / 2, w / 2);
    }
  }

  /** The conditions on a rounding can be met. */
  lemma SomeRounding() returns (round: Rounding)
    ensures IsRounding(round)
  {
    round := (x: real) => if x < TWO_53 as real then x else RoundedDown(x.Floor) as real;
    forall x, y | 0.0 <= x <= y
      ensures 0.0 <= round(x) <= round(y)
    {
      if x >= TWO_53 as real {
        RoundedDownGrows(x.Floor, y.Floor);
      } else if y >= TWO_53 as real {
        RoundedDownGrows(TWO_53, y.Floor);
        assert RoundedDown(TWO_53) == TWO_53;
      }
    }
    forall w: int | Representable(w)
      ensures round(w as real) == w as real
    {
      assert (w as real).Floor == w;
    }
    forall x: real | x >= TWO_53 as real
      ensures RoundsToWhole(round, x)
    {
      assert (RoundedDown(x.Floor) as real).Floor == RoundedDown(x.Floor);
    }
  }

  /** Conversion of a floating-point number to a 64-bit integer: truncation inside the range;
      above it, the value `outside`, which the language leaves to the platform. */
  function Converted(x: real, outside: int): int {
    if x >= TWO_63 as real then outside
    else if x < -(TWO_63 as real) then MIN_INT64
    else if x >= 0.0 then x.Floor
    else -((-x).Floor)
  }

  /** Inside the range, conversion cuts the fraction off, towards zero. */
  lemma ConversionTruncates(x: real, outside: int)
    requires -(TWO_63 as real) <= x < TWO_63 as real
    ensures var c := Converted(x, outside) as real;
            && (x >= 0.0 ==> 0.0 <= c <= x < c + 1.0)
            && (x <= 0.0 ==> c - 1.0 < x <= c <= 0.0)
  {
  }

  /** The platforms either saturate or yield the smallest integer. */
  predicate IsPlatform(outside: int) {
    outside == MAX_INT64 || outside == MIN_INT64
  }

  // ----- the loop form

  /** One round: the wait and the product are both rounded, then truncated. */
  function Scaled(wait: int, multiplier: real, round: Rounding, outside: int): int {
    Converted(round(round(wait as real) * multiplier), outside)
  }

  /** What `left` more rounds make of `wait`. */
  function Grown(wait: int, max: int, multiplier: real, round: Rounding, outside: int, left: nat): int
    decreases left
  {
    if left == 0 then wait
    else
      var next := Scaled(wait, multiplier, round, outside);
      if next > max then max else Grown(next, max, multiplier, round, outside, left - 1)
  }

  method LoopBackoff(base: int, max: int, multiplier: real, attempt: int, round: Rounding, outside: int)
    returns (wait: int)
    ensures wait == Grown(base, max, multiplier, round, outside, if attempt > 0 then attempt else 0)
  {
    wait := base;
    var i := 0;
    while i < attempt
      invariant 0 <= i && (attempt > 0 ==> i <= attempt)
      invariant Grown(wait, max, multiplier, round, outside, if attempt > i then attempt - i else 0) ==
                Grown(base, max, multiplier, round, outside, if attempt > 0 then attempt else 0)
    {
      wait := Scaled(wait, multiplier, round, outside);
      if wait > max {
        return max;
      }
      i := i + 1;
    }
  }

  // ----- one round

  /** The integer that a wait becomes in floating point. */
  function Nearby(wait: int, round: Rounding): int {
    round(wait as real).Floor
  }

  lemma NearbyFacts(wait: int, round: Rounding)
    requires IsRounding(round) && wait >= 0
    ensures round(wait as real) == Nearby(wait, round) as real
    ensures Representable(Nearby(wait, round))
    ensures Representable(wait) ==> Nearby(wait, round) == wait
  {
    if wait < TWO_53 {
      assert Representable(wait);
    } else {
      assert RoundsToWhole(round, wait as real);
    }
    if Representable(wait) {
      assert round(wait as real) == wait as real;
    }
  }

  lemma {:induction false} PowerRepresentable(n: nat)
    ensures Representable(Pow2(n))
    decreases n
  {
    if n > 0 {
      PowerRepresentable(n - 1);
      DoubledRepresentable(Pow2(n - 1));
    }
  }

  lemma RangeRepresentable()
    ensures Representable(TWO_63)
  {
    Pow2Values();
    PowerRepresentable(63);
  }

  lemma RoundsNonNegative(x: real, round: Rounding)
    requires IsRounding(round) && x >= 0.0
    ensures round(x) >= 0.0
  {
    assert Representable(0) && round(0 as real) == 0 as real;
  }

  /** Truncating a rounded number gives a representable integer. */
  lemma TruncatedRepresentable(x: real, round: Rounding)
    requires IsRounding(round) && x >= 0.0
    ensures Representable(round(x).Floor)
  {
    if x >= TWO_53 as real {
      assert RoundsToWhole(round, x);
    } else {
      assert Representable(TWO_53 / 2) && Representable(TWO_53);
      RoundsNonNegative(x, round);
      assert 0.0 <= round(x) <= round(TWO_53 as real) == TWO_53 as real;
    }
  }

  /** Doubling itself is exact: only the wait is rounded, and the range can be left. */
  lemma DoublingStep(wait: int, round: Rounding, outside: int)
    requires IsRounding(round) && wait >= 0
    ensures Scaled(wait, 2.0, round, outside) ==
            if 2 * Nearby(wait, round) >= TWO_63 then outside else 2 * Nearby(wait, round)
  {
    var r := Nearby(wait, round);
    NearbyFacts(wait, round);
    DoubledRepresentable(r);
    assert round(wait as real) * 2.0 == (2 * r) as real;
    assert round((2 * r) as real) == (2 * r) as real;
  }

  // ----- doubling, on all inputs

  lemma PowerStep(wait: int, k: nat)
    requires k > 0 && wait > 0
    ensures wait * Pow2(k) == (2 * wait) * Pow2(k - 1) >= 2 * wait
  {
    DoubleFactor(wait, Pow2(k - 1));
    ProductAtLeast(2 * wait, Pow2(k - 1));
  }

  /** A saturated wait at the cap stays there. */
  lemma {:induction false} StuckAtCap(multiplier: real, round: Rounding, left: nat)
    requires round(round(MAX_INT64 as real) * multiplier) >= TWO_63 as real
    ensures Grown(MAX_INT64, MAX_INT64, multiplier, round, MAX_INT64, left) == MAX_INT64
    decreases left
  {
    if left > 0 {
      StuckAtCap(multiplier, round, left - 1);
    }
  }

  lemma HalfRangeRepresentable()
    ensures Representable(TWO_62)
  {
    Pow2Values();
    PowerRepresentable(62);
    assert Pow2(63) == 2 * Pow2(62);
  }

  /** The largest 64-bit integer, rounded either way, leaves the range when it is doubled. */
  lemma LargestDoubled(round: Rounding)
    requires IsRounding(round)
    ensures round(round(MAX_INT64 as real) * 2.0) >= TWO_63 as real
  {
    var x := round(MAX_INT64 as real);
    assert x >= TWO_62 as real by {
      HalfRangeRepresentable();
      assert round(TWO_62 as real) == TWO_62 as real;
    }
    RangeRepresentable();
    assert round(TWO_63 as real) == TWO_63 as real <= round(x * 2.0);
  }

  lemma SaturatedDoubling(round: Rounding, left: nat)
    requires IsRounding(round)
    ensures Grown(MAX_INT64, MAX_INT64, 2.0, round, MAX_INT64, left) == MAX_INT64
  {
    LargestDoubled(round);
    StuckAtCap(2.0, round, left);
  }

  /** No doubling of the base that is still below the cap leaves the 64-bit range when it is
      doubled once more. */
  ghost predicate StaysInRange(base: int, max: int) {
    forall k: nat :: base * Pow2(k) <= max ==> base * Pow2(k) < TWO_62
  }

  lemma RangeStep(wait: int, max: int)
    requires wait > 0 && StaysInRange(wait, max)
    ensures StaysInRange(2 * wait, max)
  {
    forall k: nat | (2 * wait) * Pow2(k) <= max
      ensures (2 * wait) * Pow2(k) < TWO_62
    {
      PowerStep(wait, k + 1);
      assert wait * Pow2(k + 1) <= max;
    }
  }

  /** A wait that floating point holds exactly is doubled exactly, and stops at the cap. */
  lemma {:induction false} RepresentableDoubles(wait: int, max: int, round: Rounding, outside: int, left: nat)
    requires 0 < wait <= max < TWO_63 && Representable(wait) && IsRounding(round)
    requires outside == MAX_INT64 || StaysInRange(wait, max)
    ensures Grown(wait, max, 2.0, round, outside, left) == Min(wait * Pow2(left), max)
    decreases left
  {
    if left > 0 {
      NearbyFacts(wait, round);
      DoublingStep(wait, round, outside);
      PowerStep(wait, left);
      assert wait * Pow2(0) == wait;
      if 2 * wait >= TWO_63 {
        if max == MAX_INT64 {
          SaturatedDoubling(round, left - 1);
        }
      } else if 2 * wait <= max {
        DoubledRepresentable(wait);
        if outside != MAX_INT64 {
          RangeStep(wait, max);
        }
        RepresentableDoubles(2 * wait, max, round, outside, left - 1);
      }
    }
  }

  /** One exact doubling below the cap. */
  lemma OneDoubling(wait: int, max: int, round: Rounding, outside: int, left: nat)
    requires wait > 0 && Representable(wait) && IsRounding(round)
    requires 2 * wait <= max < TWO_63
    ensures Grown(wait, max, 2.0, round, outside, left + 1) == Grown(2 * wait, max, 2.0, round, outside, left)
  {
    NearbyFacts(wait, round);
    DoublingStep(wait, round, outside);
  }

  /** As long as the doubled wait is below the cap, the loop just goes on from it. */
  lemma {:induction false} DoublesBelowCap(wait: int, max: int, round: Rounding, outside: int, j: nat, doubled: int)
    requires wait > 0 && Representable(wait) && IsRounding(round)
    requires doubled == wait * Pow2(j) && doubled <= max < TWO_63
    ensures Grown(wait, max, 2.0, round, outside, j + 1) == Grown(doubled, max, 2.0, round, outside, 1)
    ensures Representable(doubled)
    decreases j
  {
    if j > 0 {
      PowerStep(wait, j);
      DoubledRepresentable(wait);
      DoublesBelowCap(2 * wait, max, round, outside, j - 1, doubled);
      OneDoubling(wait, max, round, outside, j);
    }
  }

  ghost predicate IsCappedDoubling(base: int, max: int, round: Rounding, outside: int) {
    forall n: nat :: Grown(base, max, 2.0, round, outside, n) == Min(base * Pow2(n), max)
  }

  /** Leaving the range on a platform that does not saturate gives a negative wait. */
  lemma LeavingRangeFails(base: int, max: int, round: Rounding, k: nat)
    requires base > 0 && Representable(base) && IsRounding(round)
    requires TWO_62 <= base * Pow2(k) <= max < TWO_63
    ensures Grown(base, max, 2.0, round, MIN_INT64, k + 1) == MIN_INT64
  {
    var w := base * Pow2(k);
    DoublesBelowCap(base, max, round, MIN_INT64, k, w);
    NearbyFacts(w, round);
    HalfRangeRepresentable();
    assert round(TWO_62 as real) == TWO_62 as real <= round(w as real);
    DoublingStep(w, round, MIN_INT64);
  }

  /** What a caller can check before using the loop with multiplier 2: the base does not
      exceed the cap; and either floating point holds the base exactly, or one doubling of
      it, rounded or not, already reaches the cap; and the platform saturates, or no wait
      leaves the 64-bit range. */
  ghost predicate DoublesExactly(base: int, max: int, round: Rounding, outside: int) {
    var first := 2 * Nearby(base, round);
    && base <= max
    && if Representable(base) then outside == MAX_INT64 || StaysInRange(base, max)
       else
         && max <= 2 * base && max <= first
         && (outside == MAX_INT64 || (first < TWO_63 && (first == max ==> max < TWO_62)))
  }

  lemma RepresentableIff(base: int, max: int, round: Rounding, outside: int)
    requires 0 < base <= max < TWO_63 && Representable(base)
    requires IsRounding(round) && IsPlatform(outside)
    ensures IsCappedDoubling(base, max, round, outside) <==> outside == MAX_INT64 || StaysInRange(base, max)
  {
    if outside == MAX_INT64 || StaysInRange(base, max) {
      forall n: nat
        ensures Grown(base, max, 2.0, round, outside, n) == Min(base * Pow2(n), max)
      {
        RepresentableDoubles(base, max, round, outside, n);
      }
    } else {
      var k: nat :| base * Pow2(k) <= max && base * Pow2(k) >= TWO_62;
      LeavingRangeFails(base, max, round, k);
      ProductAtLeast(base, Pow2(k + 1));
    }
  }

  /** The cap, once reached exactly, is kept. */
  lemma CapIsKept(max: int, round: Rounding, outside: int, left: nat)
    requires 0 < max < TWO_63 && Representable(max) && IsRounding(round)
    requires outside == MAX_INT64 || max < TWO_62
    ensures Grown(max, max, 2.0, round, outside, left) == max
  {
    CapStaysInRange(max);
    RepresentableDoubles(max, max, round, outside, left);
    ProductAtLeast(max, Pow2(left));
  }

  /** The first round of the loop with multiplier 2. */
  lemma FirstRound(base: int, max: int, round: Rounding, outside: int, n: nat)
    requires base > 0 && n > 0 && IsRounding(round)
    ensures var first := 2 * Nearby(base, round);
            var next := if first >= TWO_63 then outside else first;
            Grown(base, max, 2.0, round, outside, n) ==
            if next > max then max else Grown(next, max, 2.0, round, outside, n - 1)
  {
    DoublingStep(base, round, outside);
  }

  /** Where the first doubling reaches the cap, all further waits are the cap. */
  lemma CapHidesRest(base: int, max: int, round: Rounding, outside: int, n: nat)
    requires base > 0 && 0 < max < TWO_63 && IsRounding(round) && n > 0
    requires max <= 2 * Nearby(base, round) < TWO_63
    requires outside == MAX_INT64 || (2 * Nearby(base, round) == max ==> max < TWO_62)
    ensures Grown(base, max, 2.0, round, outside, n) == max
  {
    FirstRound(base, max, round, outside, n);
    if 2 * Nearby(base, round) == max {
      NearbyFacts(base, round);
      DoubledRepresentable(Nearby(base, round));
      CapIsKept(max, round, outside, n - 1);
    }
  }

  lemma SaturationHidesRest(base: int, max: int, round: Rounding, n: nat)
    requires base > 0 && max < TWO_63 && IsRounding(round) && n > 0
    requires 2 * Nearby(base, round) >= TWO_63
    ensures Grown(base, max, 2.0, round, MAX_INT64, n) == max
  {
    FirstRound(base, max, round, MAX_INT64, n);
    if max == MAX_INT64 {
      SaturatedDoubling(round, n - 1);
    }
  }

  /** A base that is rounded misses its first doubling, unless the cap hides it. */
  lemma RoundedBaseDoubles(base: int, max: int, round: Rounding, outside: int, n: nat)
    requires 0 < base < TWO_63 && max < TWO_63 && !Representable(base)
    requires IsRounding(round) && IsPlatform(outside) && DoublesExactly(base, max, round, outside)
    requires n > 0
    ensures Grown(base, max, 2.0, round, outside, n) == max
  {
    if 2 * Nearby(base, round) >= TWO_63 {
      SaturationHidesRest(base, max, round, n);
    } else {
      CapHidesRest(base, max, round, outside, n);
    }
  }

  lemma CapStaysInRange(max: int)
    requires max > 0
    ensures max < TWO_62 ==> StaysInRange(max, max)
  {
  }

  lemma RoundedBaseMustHide(base: int, max: int, round: Rounding, outside: int)
    requires 0 < base < TWO_63 && max < TWO_63 && !Representable(base)
    requires IsRounding(round) && IsPlatform(outside) && IsCappedDoubling(base, max, round, outside)
    ensures DoublesExactly(base, max, round, outside)
  {
    var first := 2 * Nearby(base, round);
    NearbyFacts(base, round);
    DoublingStep(base, round, outside);
    assert base * Pow2(0) == base && base * Pow2(1) == 2 * base;
    assert Grown(base, max, 2.0, round, outside, 0) == Min(base * Pow2(0), max);
    assert Grown(base, max, 2.0, round, outside, 1) == Min(base * Pow2(1), max);
    assert Grown(base, max, 2.0, round, outside, 2) == Min(base * Pow2(2), max);
    ProductAtLeast(base, Pow2(2));
    if outside == MIN_INT64 && first == max && max >= TWO_62 {
      DoubledRepresentable(Nearby(base, round));
      NearbyFacts(max, round);
      DoublingStep(max, round, outside);
    }
  }

  /** With multiplier 2 the loop form waits min(base * 2^n, max) on every attempt exactly
      when the stated condition holds: on all 64-bit inputs, for every rounding and on every
      platform. */
  lemma LoopIsCappedDoublingIff(base: int, max: int, round: Rounding, outside: int)
    requires 0 < base < TWO_63 && max < TWO_63
    requires IsRounding(round) && IsPlatform(outside)
    ensures IsCappedDoubling(base, max, round, outside) <==> DoublesExactly(base, max, round, outside)
  {
    if base > max {
      assert Grown(base, max, 2.0, round, outside, 0) == base;
      assert base * Pow2(0) == base;
    } else if Representable(base) {
      RepresentableIff(base, max, round, outside);
    } else {
      if DoublesExactly(base, max, round, outside) {
        forall n: nat
          ensures Grown(base, max, 2.0, round, outside, n) == Min(base * Pow2(n), max)
        {
          if n > 0 {
            RoundedBaseDoubles(base, max, round, outside, n);
            PowerStep(base, n);
          } else {
            assert base * Pow2(0) == base;
          }
        }
      }
      if IsCappedDoubling(base, max, round, outside) {
        RoundedBaseMustHide(base, max, round, outside);
      }
    }
  }

  /** Below 2^53 for the base and 2^62 for the cap, nothing else has to be checked. */
  lemma ModestBackoffDoubles(base: int, max: int, round: Rounding, outside: int)
    requires 0 < base < TWO_53 && max < TWO_62
    requires IsRounding(round) && IsPlatform(outside)
    ensures IsCappedDoubling(base, max, round, outside) <==> base <= max
  {
    LoopIsCappedDoublingIff(base, max, round, outside);
  }

  // ----- other multipliers

  /** Rounding a number not below a representable integer does not go below it. */
  lemma RoundKeepsBound(r: int, x: real, round: Rounding)
    requires IsRounding(round) && Representable(r) && r as real <= x
    ensures round(x).Floor >= r && Representable(round(x).Floor)
  {
    assert 0.0 <= r as real;
    assert round(r as real) == r as real <= round(x);
    TruncatedRepresentable(x, round);
  }

  /** One round that stays in range does not fall below the rounded wait. */
  lemma RoundGrows(wait: int, multiplier: real, round: Rounding)
    requires IsRounding(round) && wait >= 0 && multiplier >= 1.0
    ensures round(round(wait as real) * multiplier).Floor >= Nearby(wait, round)
    ensures Representable(round(round(wait as real) * multiplier).Floor)
  {
    NearbyFacts(wait, round);
    FactorAtLeastOne(round(wait as real), multiplier);
    RoundKeepsBound(Nearby(wait, round), round(wait as real) * multiplier, round);
  }

  lemma FactorAtLeastOne(x: real, y: real)
    requires x >= 0.0 && y >= 1.0
    ensures x * y >= x
  {
    assert x * (y - 1.0) >= 0.0;
  }

  /** The product of the largest wait is the largest product. */
  lemma LargestProduct(wait: int, max: int, multiplier: real, round: Rounding)
    requires IsRounding(round) && 0 <= wait <= max && multiplier >= 1.0
    ensures 0.0 <= round(round(wait as real) * multiplier) <= round(round(max as real) * multiplier)
  {
    var x, y := round(wait as real), round(max as real);
    RoundsNonNegative(wait as real, round);
    assert 0.0 <= x <= y;
    assert (y - x) * multiplier >= 0.0;
    FactorAtLeastOne(x, multiplier);
    RoundsNonNegative(x * multiplier, round);
    assert 0.0 <= x * multiplier <= y * multiplier;
  }

  /** The platform saturates, or even the cap times the multiplier is in range. */
  predicate ProductsInRange(max: int, multiplier: real, round: Rounding, outside: int) {
    outside == MAX_INT64 || round(round(max as real) * multiplier) < TWO_63 as real
  }

  /** One round saturates, or keeps a representable wait that has not shrunk. */
  lemma RoundOutcome(wait: int, max: int, multiplier: real, round: Rounding, outside: int)
    requires 0 <= wait <= max < TWO_63 && multiplier >= 1.0
    requires IsRounding(round) && wait <= Nearby(wait, round)
    requires ProductsInRange(max, multiplier, round, outside)
    ensures var next := Scaled(wait, multiplier, round, outside);
            if round(round(wait as real) * multiplier) >= TWO_63 as real then outside == next == MAX_INT64
            else wait <= next && Representable(next) && next == Nearby(next, round)
  {
    RoundGrows(wait, multiplier, round);
    LargestProduct(wait, max, multiplier, round);
    NearbyFacts(round(round(wait as real) * multiplier).Floor, round);
  }

  lemma StuckAfterSaturation(wait: int, multiplier: real, round: Rounding, left: nat)
    requires 0 <= wait <= MAX_INT64 && multiplier >= 1.0 && IsRounding(round)
    requires round(round(wait as real) * multiplier) >= TWO_63 as real
    ensures Grown(MAX_INT64, MAX_INT64, multiplier, round, MAX_INT64, left) == MAX_INT64
  {
    LargestProduct(wait, MAX_INT64, multiplier, round);
    StuckAtCap(multiplier, round, left);
  }

  /** For every multiplier of at least one, waits stay between base and cap and never shrink
      from one attempt to the next, provided that the base is not rounded down and no product
      is lost. */
  lemma {:induction false} LoopNeverShrinks(base: int, max: int, multiplier: real, round: Rounding, outside: int,
                                            n: nat)
    requires 0 <= base <= max < TWO_63 && multiplier >= 1.0
    requires IsRounding(round) && base <= Nearby(base, round)
    requires ProductsInRange(max, multiplier, round, outside)
    ensures base <= Grown(base, max, multiplier, round, outside, n)
                 <= Grown(base, max, multiplier, round, outside, n + 1) <= max
    decreases n
  {
    RoundOutcome(base, max, multiplier, round, outside);
    var next := Scaled(base, multiplier, round, outside);
    if round(round(base as real) * multiplier) >= TWO_63 as real {
      if max == MAX_INT64 {
        StuckAfterSaturation(base, multiplier, round, n);
        StuckAfterSaturation(base, multiplier, round, if n > 0 then n - 1 else 0);
      }
    } else if n > 0 && next <= max {
      LoopNeverShrinks(next, max, multiplier, round, outside, n - 1);
    }
  }

  ghost predicate NeverShrinks(base: int, max: int, round: Rounding, outside: int) {
    forall multiplier: real, n: nat :: multiplier >= 1.0 ==>
      Grown(base, max, multiplier, round, outside, n) <= Grown(base, max, multiplier, round, outside, n + 1)
  }

  /** No multiplier of at least one lets the wait shrink exactly when the base does not exceed
      the cap and is not rounded down, and the platform saturates: the first wait is not capped. */
  lemma NeverShrinksIff(base: int, max: int, round: Rounding, outside: int)
    requires 0 < base < TWO_63 && max < TWO_63 && IsRounding(round) && IsPlatform(outside)
    ensures NeverShrinks(base, max, round, outside) <==>
            base <= max && base <= Nearby(base, round) && outside == MAX_INT64
  {
    if base <= max && base <= Nearby(base, round) && outside == MAX_INT64 {
      forall multiplier: real, n: nat | multiplier >= 1.0
        ensures Grown(base, max, multiplier, round, outside, n) <= Grown(base, max, multiplier, round, outside, n + 1)
      {
        LoopNeverShrinks(base, max, multiplier, round, outside, n);
      }
    }
    if NeverShrinks(base, max, round, outside) {
      FirstWaitIsCapped(base, max, round, outside);
      FirstRoundKeeps(base, max, round, outside);
      HugeMultiplier(base, round, outside);
      var huge := TWO_63 as real;
      assert Grown(base, max, huge, round, outside, 0) <= Grown(base, max, huge, round, outside, 0 + 1);
    }
  }

  lemma FirstWaitIsCapped(base: int, max: int, round: Rounding, outside: int)
    requires 0 < base < TWO_63 && max < TWO_63 && NeverShrinks(base, max, round, outside)
    ensures base <= max
  {
    assert Grown(base, max, 1.0, round, outside, 0) <= Grown(base, max, 1.0, round, outside, 0 + 1);
  }

  /** A base of sixty seconds and a cap of thirty: the second wait is half the first. */
  lemma UncappedFirstWait(round: Rounding, outside: int)
    requires IsRounding(round) && IsPlatform(outside)
    ensures Grown(60 * SECOND, 30 * SECOND, 2.0, round, outside, 0) == 60 * SECOND
    ensures Grown(60 * SECOND, 30 * SECOND, 2.0, round, outside, 1) == 30 * SECOND
  {
    NearbyFacts(60 * SECOND, round);
    DoublingStep(60 * SECOND, round, outside);
  }

  lemma FirstRoundKeeps(base: int, max: int, round: Rounding, outside: int)
    requires 0 < base <= max < TWO_63 && IsRounding(round) && NeverShrinks(base, max, round, outside)
    ensures base <= Nearby(base, round)
  {
    NearbyFacts(base, round);
    var r := Nearby(base, round);
    assert round(r as real) == r as real;
    assert round(base as real) * 1.0 == r as real;
    assert Grown(base, max, 1.0, round, outside, 0) <= Grown(base, max, 1.0, round, outside, 0 + 1);
  }

  lemma HugeMultiplier(base: int, round: Rounding, outside: int)
    requires base > 0 && IsRounding(round)
    ensures Scaled(base, TWO_63 as real, round, outside) == outside
  {
    assert Representable(1);
    assert round(1 as real) == 1 as real <= round(base as real);
    RangeRepresentable();
    assert round(base as real) * TWO_63 as real >= TWO_63 as real;
    assert round(TWO_63 as real) == TWO_63 as real <= round(round(base as real) * TWO_63 as real);
  }

  // ----- the shift form

  /** The value of an integer in a signed 64-bit word. */
  function Wrap64(x: int): int {
    (x + TWO_63) % TWO_64 - TWO_63
  }

  /** It is the one integer in range that differs by a multiple of 2^64. */
  lemma WrapIsCongruent(x: int)
    ensures -TWO_63 <= Wrap64(x) < TWO_63
    ensures exists k: int :: x == Wrap64(x) + k * TWO_64
  {
    var k := (x + TWO_63) / TWO_64;
    assert x == Wrap64(x) + k * TWO_64;
  }

  /** 1 << n in a signed 64-bit word. */
  function Shift64(n: nat): int {
    if n < 63 then Pow2(n) else if n == 63 then -TWO_63 else 0
  }

  function ShiftBackoff(base: int, max: int, n: nat): int {
    Min(Wrap64(base * Shift64(n)), max)
  }

  lemma WrapOfMultiple(x: int, k: int)
    ensures Wrap64(x + k * TWO_64) == Wrap64(x)
  {
    var y := x + TWO_63;
    var q, r := y / TWO_64, y % TWO_64;
    assert y + k * TWO_64 == (q + k) * TWO_64 + r;
    RemainderUnique(y + k * TWO_64, q + k, r);
  }

  lemma RemainderUnique(y: int, q: int, r: int)
    requires 0 <= r < TWO_64 && y == q * TWO_64 + r
    ensures y % TWO_64 == r
  {
  }

  /** Past the word's width, a product with the power of two is a multiple of 2^64. */
  lemma WideProduct(base: int, n: nat)
    requires n >= 64
    ensures Wrap64(base * Pow2(n)) == 0
  {
    var p := Pow2(n - 64);
    Pow2Values();
    Pow2Sum(63, n - 63);
    assert Pow2(n) == p * TWO_64;
    assert base * Pow2(n) == 0 + (base * p) * TWO_64;
    WrapOfMultiple(0, base * p);
  }

  /** The shifted word stands for the power of two, modulo 2^64. */
  lemma ShiftedProduct(base: int, n: nat)
    ensures Wrap64(base * Shift64(n)) == Wrap64(base * Pow2(n))
  {
    if n == 63 {
      Pow2Values();
      assert base * -TWO_63 == base * TWO_63 + (-base) * TWO_64;
      WrapOfMultiple(base * TWO_63, -base);
    } else if n > 63 {
      WideProduct(base, n);
      assert base * Shift64(n) == 0;
    }
  }

  lemma WrapInRange(x: int)
    requires 0 <= x < TWO_64
    ensures Wrap64(x) == if x < TWO_63 then x else x - TWO_64
  {
    if x < TWO_63 {
      RemainderUnique(x + TWO_63, 0, x + TWO_63);
    } else {
      RemainderUnique(x + TWO_63, 1, x - TWO_63);
    }
  }

  /** For every base and cap, the first attempt whose product leaves the 64-bit word gets a
      negative wait. */
  lemma FirstOverflowIsNegative(base: int, max: int, n: nat)
    requires base > 0 && n > 0
    requires base * Pow2(n - 1) < TWO_63 <= base * Pow2(n)
    ensures ShiftBackoff(base, max, n) < 0
  {
    PowerStep(base, n);
    DoubleFactor(base, Pow2(n - 1));
    ShiftedProduct(base, n);
    WrapInRange(base * Pow2(n));
  }

  /** Before that attempt the shift form is the doubled base, capped. */
  lemma ShiftBelowOverflow(base: int, max: int, n: nat)
    requires base > 0 && base * Pow2(n) < TWO_63
    ensures ShiftBackoff(base, max, n) == Min(base * Pow2(n), max)
  {
    ProductAtLeast(base, Pow2(n));
    ShiftedProduct(base, n);
    WrapInRange(base * Pow2(n));
  }

  lemma {:induction false} FirstOverflow(base: int, n: nat) returns (k: nat)
    requires 0 < base < TWO_63 <= base * Pow2(n)
    ensures 1 <= k <= n && base * Pow2(k - 1) < TWO_63 <= base * Pow2(k)
    decreases n
  {
    assert base * Pow2(0) == base;
    if base * Pow2(n - 1) < TWO_63 {
      k := n;
    } else {
      k := FirstOverflow(base, n - 1);
    }
  }

  /** The shift form waits min(base * 2^k, max) on all attempts up to the n-th exactly when
      the n-th product fits a 64-bit word. */
  lemma ShiftIsCappedDoublingIff(base: int, max: int, n: nat)
    requires 0 < base < TWO_63 && 0 <= max < TWO_63
    ensures (forall k: nat :: k <= n ==> ShiftBackoff(base, max, k) == Min(base * Pow2(k), max)) <==>
            base * Pow2(n) < TWO_63
  {
    if base * Pow2(n) < TWO_63 {
      forall k: nat | k <= n
        ensures ShiftBackoff(base, max, k) == Min(base * Pow2(k), max)
      {
        Pow2Grows(k, n);
        ProductGrows(base, Pow2(k), Pow2(n));
        ShiftBelowOverflow(base, max, k);
      }
    } else {
      var k := FirstOverflow(base, n);
      FirstOverflowIsNegative(base, max, k);
      assert ShiftBackoff(base, max, k) != Min(base * Pow2(k), max);
    }
  }

  /** Where the loop form doubles exactly, the two forms agree on all attempts up to the n-th
      exactly when the n-th product fits a 64-bit word. */
  lemma ShiftAgreesIff(base: int, max: int, round: Rounding, outside: int, n: nat)
    requires 0 < base < TWO_63 && max < TWO_63 && IsRounding(round) && IsPlatform(outside)
    requires DoublesExactly(base, max, round, outside)
    ensures (forall k: nat :: k <= n ==> ShiftBackoff(base, max, k) == Grown(base, max, 2.0, round, outside, k)) <==>
            base * Pow2(n) < TWO_63
  {
    LoopIsCappedDoublingIff(base, max, round, outside);
    assert forall k: nat :: Grown(base, max, 2.0, round, outside, k) == Min(base * Pow2(k), max);
    ShiftIsCappedDoublingIff(base, max, n);
  }

  /** From the 65th attempt on, counted from 1, the shift form does not wait at all, where
      capped doubling waits as long as the cap. */
  lemma ShiftCollapses(base: int, max: int, n: nat)
    requires 0 < base < TWO_63 && 0 <= max < TWO_63 && n >= 64
    ensures ShiftBackoff(base, max, n) == 0
    ensures Min(base * Pow2(n), max) == max
  {
    ShiftedProduct(base, n);
    WideProduct(base, n);
    ProductAtLeast(TWO_63, Pow2(n - 63));
    assert Pow2(n) >= TWO_63 by {
      Pow2Values();
      Pow2Sum(63, n - 63);
    }
    ProductAtLeast(Pow2(n), base);
  }

  /** With the default base of one second and cap of thirty, attempts 0 to 33 wait as intended
      and attempt 34 gets a negative wait. */
  lemma DefaultShiftBackoff(n: nat)
    ensures n <= 33 ==> ShiftBackoff(SECOND, 30 * SECOND, n) == Min(SECOND * Pow2(n), 30 * SECOND)
    ensures ShiftBackoff(SECOND, 30 * SECOND, 34) < 0
  {
    Pow2Values();
    ShiftIsCappedDoublingIff(SECOND, 30 * SECOND, 33);
    FirstOverflowIsNegative(SECOND, 30 * SECOND, 34);
  }
}
