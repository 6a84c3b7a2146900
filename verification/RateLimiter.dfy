/**
 Firecracker takes the size of a rate limiter in units of 1024, Kata's configuration in units of
 1000. A rate is converted by reading its base-1000 digits in base 1024, in 64-bit arithmetic.
 */
module RateLimiter {

  const TWO_TO_THE_64: nat := 0x1_0000_0000_0000_0000

  /** The conversion as computed, every result reduced to 64 bits. */
  function RevertBytes(num: nat): nat {
    var a, b := num / 1000, num % 1000;
    if a == 0 then num else (1024 * RevertBytes(a) % TWO_TO_THE_64 + b) % TWO_TO_THE_64
  }

  /** The digits of a number in base 1000, the last one first. */
  function Digits(num: nat): seq<nat> {
    if num < 1000 then [num] else [num % 1000] + Digits(num / 1000)
  }

  /** The number that digits stand for in a base. */
  function Value(digits: seq<nat>, base: nat): nat {
    if digits == [] then 0 else digits[0] + base * Value(digits[1..], base)
  }

  /** The number meant: the base-1000 digits read in base 1024. */
  function Reverted(num: nat): nat {
    Value(Digits(num), 1024)
  }

  lemma {:induction false} DigitsRoundTrip(num: nat)
    ensures Value(Digits(num), 1000) == num
    ensures forall i :: 0 <= i < |Digits(num)| ==> Digits(num)[i] < 1000
  {
    if num < 1000 {
      assert [num][1..] == [];
    } else {
      DigitsRoundTrip(num / 1000);
      assert Digits(num)[1..] == Digits(num / 1000);
    }
  }

  lemma RevertedStep(num: nat)
    ensures Reverted(num) == if num < 1000 then num else num % 1000 + 1024 * Reverted(num / 1000)
  {
    if num < 1000 {
      assert Digits(num) == [num] && [num][1..] == [];
      assert Value([num], 1024) == num + 1024 * Value([], 1024);
    } else {
      assert Digits(num)[1..] == Digits(num / 1000);
    }
  }

  /** A larger rate gives a larger size, never smaller than the rate. */
  lemma {:induction false} RevertedIncreases(x: nat, y: nat)
    requires x < y
    ensures Reverted(x) < Reverted(y) && Reverted(y) >= y
  {
    RevertedStep(x);
    RevertedStep(y);
    if y >= 1000 {
      RevertedIncreases(0, y / 1000);
      if x / 1000 < y / 1000 {
        RevertedIncreases(x / 1000, y / 1000);
      }
    }
  }

  /** The 64-bit computation is the meant number reduced to 64 bits. */
  lemma {:induction false} RevertBytesWraps(num: nat)
    requires num < TWO_TO_THE_64
    ensures RevertBytes(num) == Reverted(num) % TWO_TO_THE_64
  {
    RevertedStep(num);
    if num >= 1000 {
      var a := num / 1000;
      RevertBytesWraps(a);
      ReduceStep(Reverted(a), num % 1000);
    }
  }

  /** Reducing along the way does not change the remainder. */
  lemma ReduceStep(x: nat, b: nat)
    ensures (1024 * (x % TWO_TO_THE_64) % TWO_TO_THE_64 + b) % TWO_TO_THE_64 == (b + 1024 * x) % TWO_TO_THE_64
  {
    var m := TWO_TO_THE_64;
    var q, r := x / m, x % m;
    assert x == q * m + r;
    var q2, r2 := 1024 * r / m, 1024 * r % m;
    assert b + 1024 * x == (r2 + b) + (q2 + 1024 * q) * m;
    SameRemainder(r2 + b, q2 + 1024 * q);
  }

  lemma SameRemainder(x: nat, k: nat)
    ensures (x + k * TWO_TO_THE_64) % TWO_TO_THE_64 == x % TWO_TO_THE_64
  {
  }

  const FIRST_TOO_LARGE: nat := 16_000_000_000_000_000_000

  lemma FirstTooLarge()
    ensures Reverted(FIRST_TOO_LARGE) == TWO_TO_THE_64
  {
    RevertedStep(16);
    RevertedStep(16_000);
    RevertedStep(16_000_000);
    RevertedStep(16_000_000_000);
    RevertedStep(16_000_000_000_000);
    RevertedStep(16_000_000_000_000_000);
    RevertedStep(16_000_000_000_000_000_000);
  }

  /** The 64-bit result is the number meant exactly for numbers below 16 * 1000^6; from there on it is
      smaller than what it stands for. */
  lemma RevertBytesExactly(num: nat)
    requires num < TWO_TO_THE_64
    ensures RevertBytes(num) == Reverted(num) <==> num < FIRST_TOO_LARGE
  {
    RevertBytesWraps(num);
    FitsExactly(num);
    KeptExactly(Reverted(num));
  }

  lemma KeptExactly(x: nat)
    ensures x % TWO_TO_THE_64 == x <==> x < TWO_TO_THE_64
  {
  }

  /** The number meant fits in 64 bits exactly below the limit. */
  lemma FitsExactly(num: nat)
    ensures Reverted(num) < TWO_TO_THE_64 <==> num < FIRST_TOO_LARGE
  {
    FirstTooLarge();
    if num < FIRST_TOO_LARGE {
      RevertedIncreases(num, FIRST_TOO_LARGE);
    } else if num > FIRST_TOO_LARGE {
      RevertedIncreases(FIRST_TOO_LARGE, num);
    }
  }

  /** No product and no sum of the computation exceeds 64 bits. */
  predicate NoWrap(num: nat) {
    num < 1000 ||
    (NoWrap(num / 1000) && 1024 * RevertBytes(num / 1000) + num % 1000 < TWO_TO_THE_64)
  }

  /** Nothing wraps along the way exactly below the same limit. */
  lemma {:induction false} NoWrapExactly(num: nat)
    requires num < TWO_TO_THE_64
    ensures NoWrap(num) <==> num < FIRST_TOO_LARGE
  {
    if num >= 1000 {
      NoWrapExactly(num / 1000);
      RevertBytesExactly(num / 1000);
      RevertedStep(num);
      FitsExactly(num);
    }
  }

  /** The size of a token bucket for a configured rate in bits: always the number meant, because a
      rate in bytes stays below the limit, and increasing in the rate. */
  lemma BucketSizeIsMeant(rate: nat)
    requires rate < TWO_TO_THE_64
    ensures NoWrap(rate / 8) && RevertBytes(rate / 8) == Reverted(rate / 8) >= rate / 8
    ensures forall larger: nat :: rate / 8 < larger / 8 && larger < TWO_TO_THE_64 ==>
              RevertBytes(rate / 8) < RevertBytes(larger / 8)
  {
    RevertBytesExactly(rate / 8);
    NoWrapExactly(rate / 8);
    RevertedStep(rate / 8);
    if rate / 8 > 0 {
      RevertedIncreases(0, rate / 8);
    }
    forall larger: nat | rate / 8 < larger / 8 && larger < TWO_TO_THE_64
      ensures RevertBytes(rate / 8) < RevertBytes(larger / 8)
    {
      RevertBytesExactly(larger / 8);
      RevertedIncreases(rate / 8, larger / 8);
    }
  }

  /** A number at the limit comes out as zero. */
  lemma LimitWrapsToZero()
    ensures RevertBytes(FIRST_TOO_LARGE) == 0
  {
    FirstTooLarge();
    RevertBytesWraps(FIRST_TOO_LARGE);
  }
}
