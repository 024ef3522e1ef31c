/**
 Retry delays (`retry_delay_ms` in `scheduler.rs`): an exponential backoff in
 micros of a ratio, clamped, with jitter spread by a multiply-shift.

 The first 64 bits of the SHA-256 digest are a parameter. Fixed widths are
 written out: `u64` values are below `TWO_64`, products are taken in `u128`.
 */
module RetryDelay {
  const TWO_63 := 0x8000_0000_0000_0000
  const TWO_64 := 0x1_0000_0000_0000_0000
  const TWO_128 := TWO_64 * TWO_64
  const MILLION := 1_000_000

  type U64 = n: nat | n < TWO_64

  type U128 = n: nat | n < TWO_128

  datatype Policy = Policy(initial: U64, max: U64, multiplier: U64, jitter: U64)

  function Min(a: nat, b: nat): nat
  {
    if a <= b then a else b
  }

  /** `u128::saturating_mul`. */
  function Times(a: nat, b: nat): U128
  {
    Min(a * b, TWO_128 - 1)
  }

  lemma {:induction false} ProductBelow(a: nat, b: nat, c: nat, d: nat)
    requires a <= c && b <= d
    ensures a * b <= c * d
  {
    assert a * b <= c * b <= c * d;
  }

  lemma {:induction false} SmallProducts(a: U64, b: U64)
    ensures Times(a, b) == a * b && a * b < TWO_128
  {
    ProductBelow(a, b, TWO_64 - 1, TWO_64 - 1);
  }

  // ----- the backoff -----

  /** One step without a clamp. */
  function Step(base: nat, multiplier: nat): nat
  {
    base * multiplier / MILLION
  }

  /** The backoff that is never clamped. */
  function Unclamped(policy: Policy, ordinal: nat): nat
  {
    if ordinal == 0 then policy.initial else Step(Unclamped(policy, ordinal - 1), policy.multiplier)
  }

  /** What the loop keeps. */
  function Base(policy: Policy, ordinal: nat): (base: U64)
    ensures base <= policy.max
  {
    if ordinal == 0 then Min(policy.initial, policy.max)
    else Min(Times(Base(policy, ordinal - 1), policy.multiplier) / MILLION, policy.max)
  }

  lemma {:induction false} DivisionMonotone(a: nat, b: nat)
    requires a <= b
    ensures a / MILLION <= b / MILLION
  {
  }

  lemma {:induction false} StepGrows(a: nat, multiplier: nat)
    requires multiplier >= MILLION
    ensures Step(a, multiplier) >= a
  {
    ProductBelow(a, MILLION, a, multiplier);
    DivisionMonotone(a * MILLION, a * multiplier);
  }

  lemma {:induction false} StepShrinks(a: nat, multiplier: nat)
    requires multiplier <= MILLION
    ensures Step(a, multiplier) <= a
  {
    ProductBelow(a, multiplier, a, MILLION);
    DivisionMonotone(a * multiplier, a * MILLION);
  }

  /** The next base is the clamped step: the product of two `u64` never saturates. */
  lemma {:induction false} NextBase(policy: Policy, ordinal: nat)
    ensures Base(policy, ordinal + 1) == Min(Step(Base(policy, ordinal), policy.multiplier), policy.max)
  {
    SmallProducts(Base(policy, ordinal), policy.multiplier);
  }

  /** Clamping in every round equals clamping once at the end. */
  predicate ClampsAlike(policy: Policy, ordinal: nat)
  {
    Base(policy, ordinal) == Min(Unclamped(policy, ordinal), policy.max)
  }

  /** For every ratio of at least one, and for every start within the maximum, clamping once is enough. */
  lemma {:induction false} ClampedOnce(policy: Policy, ordinal: nat)
    requires policy.multiplier >= MILLION || policy.initial <= policy.max
    ensures ClampsAlike(policy, ordinal)
  {
    if ordinal > 0 {
      var base, free := Base(policy, ordinal - 1), Unclamped(policy, ordinal - 1);
      ClampedOnce(policy, ordinal - 1);
      NextBase(policy, ordinal - 1);
      if policy.multiplier >= MILLION {
        StepGrows(base, policy.multiplier);
        StepGrows(free, policy.multiplier);
      } else {
        StaysBelow(policy, ordinal - 1);
      }
    }
  }

  lemma {:induction false} StaysBelow(policy: Policy, ordinal: nat)
    requires policy.multiplier <= MILLION && policy.initial <= policy.max
    ensures Unclamped(policy, ordinal) <= policy.max
  {
    if ordinal > 0 {
      StaysBelow(policy, ordinal - 1);
      StepShrinks(Unclamped(policy, ordinal - 1), policy.multiplier);
    }
  }

  /** A ratio below one shrinks everything but zero. */
  lemma {:induction false} StepShrinksStrictly(a: nat, multiplier: nat)
    requires multiplier < MILLION && a > 0
    ensures Step(a, multiplier) < a
  {
    ProductBelow(a, multiplier, a, MILLION - 1);
    assert a * multiplier <= a * (MILLION - 1) < a * MILLION;
    QuotientBelow(a * multiplier, a);
  }

  lemma {:induction false} QuotientBelow(n: nat, a: nat)
    requires n < a * MILLION
    ensures n / MILLION < a
  {
  }

  lemma {:induction false} StepMonotone(a: nat, b: nat, multiplier: nat)
    requires a <= b
    ensures Step(a, multiplier) <= Step(b, multiplier)
  {
    ProductBelow(a, multiplier, b, multiplier);
    DivisionMonotone(a * multiplier, b * multiplier);
  }

  /** When the first steps coincide, the clamped and the free iteration are the same from then on. */
  lemma {:induction false} SameFromFirstStep(policy: Policy, ordinal: nat)
    requires policy.multiplier < MILLION && policy.max < policy.initial && ordinal > 0
    requires Step(policy.initial, policy.multiplier) == Step(policy.max, policy.multiplier)
    ensures Base(policy, ordinal) == Unclamped(policy, ordinal) <= policy.max
  {
    NextBase(policy, ordinal - 1);
    if ordinal == 1 {
      StepShrinks(policy.max, policy.multiplier);
      assert Base(policy, 0) == policy.max && Unclamped(policy, 0) == policy.initial;
    } else {
      SameFromFirstStep(policy, ordinal - 1);
      StepShrinks(Base(policy, ordinal - 1), policy.multiplier);
    }
  }

  lemma {:induction false} ZeroStays(policy: Policy, ordinal: nat)
    requires policy.max == 0
    ensures ClampsAlike(policy, ordinal)
  {
  }

  /**
   Clamping in every round equals clamping once at the end, at all ordinals,
   exactly when the ratio is at least one, or the start is within the maximum,
   or the maximum is zero, or the first step does not tell start and maximum apart.
   */
  lemma {:induction false} ClampedOnceExactly(policy: Policy)
    ensures (forall ordinal: nat :: ClampsAlike(policy, ordinal))
       <==> policy.multiplier >= MILLION || policy.initial <= policy.max || policy.max == 0
            || Step(policy.initial, policy.multiplier) == Step(policy.max, policy.multiplier)
  {
    hide ClampsAlike, Step;
    if policy.multiplier >= MILLION || policy.initial <= policy.max {
      forall ordinal: nat ensures ClampsAlike(policy, ordinal) { ClampedOnce(policy, ordinal); }
    } else if policy.max == 0 {
      forall ordinal: nat ensures ClampsAlike(policy, ordinal) { ZeroStays(policy, ordinal); }
    } else if Step(policy.initial, policy.multiplier) == Step(policy.max, policy.multiplier) {
      forall ordinal: nat ensures ClampsAlike(policy, ordinal) { AlikeFromFirstStep(policy, ordinal); }
    } else {
      DifferAtFirstStep(policy);
    }
  }

  lemma {:induction false} AlikeFromFirstStep(policy: Policy, ordinal: nat)
    requires policy.multiplier < MILLION && policy.max < policy.initial
    requires Step(policy.initial, policy.multiplier) == Step(policy.max, policy.multiplier)
    ensures ClampsAlike(policy, ordinal)
  {
    if ordinal > 0 { SameFromFirstStep(policy, ordinal); }
  }

  lemma {:induction false} DifferAtFirstStep(policy: Policy)
    requires policy.multiplier < MILLION && 0 < policy.max < policy.initial
    requires Step(policy.initial, policy.multiplier) != Step(policy.max, policy.multiplier)
    ensures !ClampsAlike(policy, 1)
  {
    hide Step;
    NextBase(policy, 0);
    StepMonotone(policy.max, policy.initial, policy.multiplier);
    StepShrinksStrictly(policy.max, policy.multiplier);
    assert Unclamped(policy, 0) == policy.initial && Base(policy, 0) == policy.max;
    assert Unclamped(policy, 1) == Step(policy.initial, policy.multiplier);
  }

  /**
   An example outside that condition: a ratio of one half from 100 down to a
   maximum of 10. The graph validation rejects such a ratio (`IsValid`), so
   only a direct caller can pass it.
   */
  lemma {:induction false} ClampingEarlyMayDiffer()
    ensures var policy := Policy(100, 10, 500_000, 0);
            !IsValid(policy) && Base(policy, 1) == 5 && Min(Unclamped(policy, 1), policy.max) == 10
  {
    var policy := Policy(100, 10, 500_000, 0);
    NextBase(policy, 0);
    assert Base(policy, 0) == 10;
    assert Unclamped(policy, 0) == 100;
  }

  /** A later retry never waits on a smaller base. */
  lemma {:induction false} BaseGrows(policy: Policy, a: nat, b: nat)
    requires policy.multiplier >= MILLION && a <= b
    ensures Base(policy, a) <= Base(policy, b)
    decreases b - a
  {
    if a < b {
      BaseGrows(policy, a, b - 1);
      NextBase(policy, b - 1);
      StepGrows(Base(policy, b - 1), policy.multiplier);
    }
  }

  /** A base below the maximum is the ratio's share of the one before, rounded down. */
  lemma {:induction false} BaseIsTheShare(policy: Policy, ordinal: nat)
    ensures var base, next := Base(policy, ordinal), Base(policy, ordinal + 1);
            && next * MILLION <= base * policy.multiplier
            && (base * policy.multiplier < (next + 1) * MILLION || next == policy.max)
  {
    hide Base;
    NextBase(policy, ordinal);
    MillionBounds(Base(policy, ordinal) * policy.multiplier);
  }

  lemma MillionBounds(n: nat)
    ensures n / MILLION * MILLION <= n < (n / MILLION + 1) * MILLION
  {
  }

  function Power(k: nat, n: nat): nat
  {
    if n == 0 then 1 else Power(k, n - 1) * k
  }

  /** With a whole ratio the backoff is exponential: the start times a power of the ratio, cut at the maximum. */
  lemma {:induction false} WholeRatio(policy: Policy, k: nat, ordinal: nat)
    requires k > 0 && policy.multiplier == k * MILLION
    ensures Base(policy, ordinal) == Min(policy.initial * Power(k, ordinal), policy.max)
  {
    UnclampedPower(policy, k, ordinal);
    ClampedOnce(policy, ordinal);
  }

  lemma {:induction false} UnclampedPower(policy: Policy, k: nat, ordinal: nat)
    requires policy.multiplier == k * MILLION
    ensures Unclamped(policy, ordinal) == policy.initial * Power(k, ordinal)
  {
    if ordinal > 0 {
      UnclampedPower(policy, k, ordinal - 1);
      var before := Unclamped(policy, ordinal - 1);
      assert before * (k * MILLION) == before * k * MILLION;
      WholeQuotient(before * k);
      Regroup(policy.initial, Power(k, ordinal - 1), k);
    }
  }

  lemma WholeQuotient(n: nat)
    ensures n * MILLION / MILLION == n
  {
  }

  lemma Regroup(a: nat, b: nat, c: nat)
    ensures a * b * c == a * (b * c)
  {
  }

  // ----- the jitter -----

  function Span(policy: Policy, base: U64): U64
  {
    Min(base * policy.jitter / MILLION, TWO_64 - 1)
  }

  /** The multiply-shift of a 64-bit random number onto `0 .. 2 * span`. */
  function Position(span: U64, random: U64): nat
  {
    Times(random, 2 * span + 1) / TWO_64
  }

  function Delay(policy: Policy, ordinal: nat, random: U64): U64
  {
    var base := Base(policy, ordinal);
    var span := Span(policy, base);
    if span == 0 then base
    else
      var position := Position(span, random);
      var adjusted := if position >= span then base + position - span
                      else if base >= span - position then base - (span - position) else 0;
      Min(adjusted, policy.max)
  }

  lemma {:induction false} Quotient(n: nat, q: nat)
    requires q * TWO_64 <= n < (q + 1) * TWO_64
    ensures n / TWO_64 == q
  {
  }

  lemma {:induction false} QuotientBounds(n: nat)
    ensures n / TWO_64 * TWO_64 <= n < (n / TWO_64 + 1) * TWO_64
  {
  }

  lemma {:induction false} PositionInRange(span: U64, random: U64)
    ensures Position(span, random) <= 2 * span && Position(span, random) < TWO_64
  {
    var width := 2 * span + 1;
    var product := Times(random, width);
    ProductBelow(random, width, TWO_64 - 1, width);
    QuotientBounds(product);
    assert product < width * TWO_64;
    assert product < TWO_64 * TWO_64;
  }

  /** The smallest random number that reaches a position. */
  function Reaching(span: U64, position: nat): nat
  {
    (position * TWO_64 + 2 * span) / (2 * span + 1)
  }

  lemma {:induction false} RoundUp(n: nat, width: nat)
    requires width > 0
    ensures var q := (n + width - 1) / width; n <= q * width < n + width
  {
    var m := n + width - 1;
    var q := m / width;
    assert m == q * width + m % width;
  }

  lemma {:induction false} CancelRight(a: nat, b: nat, width: nat)
    requires width > 0 && a * width < b * width
    ensures a < b
  {
    if a >= b { ProductBelow(b, width, a, width); }
  }

  lemma {:induction false} Reached(span: U64, position: nat)
    requires span < TWO_63 && position <= 2 * span
    ensures Reaching(span, position) < TWO_64
    ensures Position(span, Reaching(span, position)) == position
  {
    var width := 2 * span + 1;
    var q := Reaching(span, position);
    RoundUp(position * TWO_64, width);
    assert position * TWO_64 + width <= (position + 1) * TWO_64;
    ProductBelow(position + 1, TWO_64, width, TWO_64);
    CancelRight(q, TWO_64, width);
    ProductBelow(q, width, TWO_64, TWO_64 - 1);
    assert q * width < TWO_128;
    Quotient(q * width, position);
  }

  ghost predicate CanReach(span: U64, position: nat)
  {
    exists random: U64 :: Position(span, random) == position
  }

  lemma {:induction false} LastIsLost(span: U64)
    requires span >= TWO_63
    ensures !CanReach(span, 2 * span)
  {
    forall random: U64 ensures Position(span, random) != 2 * span {
      PositionInRange(span, random);
    }
  }

  /**
   The multiply-shift reaches every position exactly when the span is below
   2^63. From there on the last position is at least 2^64 and so out of reach
   for 64 random bits; for larger spans some positions before it are, too.
   */
  lemma {:induction false} EveryPositionReached(span: U64)
    ensures (forall p: nat :: p <= 2 * span ==> CanReach(span, p)) <==> span < TWO_63
  {
    if span < TWO_63 {
      forall p: nat | p <= 2 * span ensures CanReach(span, p) {
        Reached(span, p);
        var random: U64 := Reaching(span, p);
        assert Position(span, random) == p;
      }
    } else {
      LastIsLost(span);
    }
  }

  // ----- the delay -----

  /** The delay stays within the span around the base, not below zero and not above the maximum. */
  lemma {:induction false} DelayInRange(policy: Policy, ordinal: nat, random: U64)
    ensures InInterval(policy, ordinal, Delay(policy, ordinal, random))
  {
    hide Base, Span, Position;
    var base := Base(policy, ordinal);
    PositionInRange(Span(policy, base), random);
  }

  /** A policy that the graph validation accepts (`graph/apply.rs`). */
  predicate IsValid(policy: Policy)
  {
    policy.multiplier >= MILLION && policy.jitter <= MILLION && policy.max > 0
  }

  lemma {:induction false} ValidSpan(policy: Policy, base: U64)
    requires IsValid(policy)
    ensures Span(policy, base) <= base
  {
    StepShrinks(base, policy.jitter);
  }

  /** Up to the largest number of 64 bits, the span is the jitter's share of the base, rounded down. */
  lemma {:induction false} SpanIsTheShare(policy: Policy, base: U64)
    ensures Span(policy, base) * MILLION <= base * policy.jitter
    ensures base * policy.jitter < (Span(policy, base) + 1) * MILLION || Span(policy, base) == TWO_64 - 1
  {
    MillionBounds(base * policy.jitter);
  }

  /** The position is the random number's share of all positions, rounded down, as long as the product has 128 bits. */
  lemma {:induction false} PositionIsTheShare(span: U64, random: U64)
    ensures var product, position := random * (2 * span + 1), Position(span, random);
            if product < TWO_128 then position * TWO_64 <= product < (position + 1) * TWO_64
            else position == TWO_64 - 1
  {
    var product := random * (2 * span + 1);
    if product < TWO_128 {
      QuotientBounds(product);
    } else {
      Quotient(TWO_128 - 1, TWO_64 - 1);
    }
  }

  /** For a valid policy the delay is the position counted from the low end of the interval, cut at the maximum. */
  lemma {:induction false} DelayIsThePosition(policy: Policy, ordinal: nat, random: U64)
    requires IsValid(policy)
    ensures var base := Base(policy, ordinal);
            var place := base + Position(Span(policy, base), random) - Span(policy, base);
            Delay(policy, ordinal, random) == if place <= policy.max then place else policy.max
  {
    hide Base, Span, Position, Times;
    ValidSpan(policy, Base(policy, ordinal));
    PositionInRange(Span(policy, Base(policy, ordinal)), random);
  }

  lemma {:induction false} DelayGrows(policy: Policy, ordinal: nat, a: U64, b: U64)
    requires a <= b
    ensures Delay(policy, ordinal, a) <= Delay(policy, ordinal, b)
  {
    hide Base, Span, Position;
    PositionMonotone(Span(policy, Base(policy, ordinal)), a, b);
  }

  predicate InInterval(policy: Policy, ordinal: nat, delay: nat)
  {
    var base := Base(policy, ordinal);
    var span := Span(policy, base);
    base - span <= delay <= Min(base + span, policy.max)
  }

  ghost predicate CanTake(policy: Policy, ordinal: nat, delay: nat)
  {
    exists random: U64 :: Delay(policy, ordinal, random) == delay
  }

  /** At a span of 2^63 each random number is its own position. */
  lemma {:induction false} Identity(random: U64)
    ensures Position(TWO_63, random) == random
  {
    ProductBelow(random, TWO_64 + 1, TWO_64 - 1, TWO_64 + 1);
    Quotient(random * (TWO_64 + 1), random);
  }

  /** The first position above a span of 2^63 that the multiply-shift skips. */
  function Skipped(span: U64): nat
    requires span > TWO_63
  {
    (TWO_64 + 2 * (span - TWO_63)) / (2 * (span - TWO_63) + 1)
  }

  lemma {:induction false} PositionMonotone(span: U64, a: U64, b: U64)
    requires a <= b
    ensures Position(span, a) <= Position(span, b)
  {
    ProductBelow(a, 2 * span + 1, b, 2 * span + 1);
    TimesMonotone(a, b, 2 * span + 1);
    hide Times;
    DivideMonotone(Times(a, 2 * span + 1), Times(b, 2 * span + 1));
  }

  lemma {:induction false} TimesMonotone(a: nat, b: nat, width: nat)
    requires a * width <= b * width
    ensures Times(a, width) <= Times(b, width)
  {
  }

  lemma {:induction false} DivideMonotone(a: nat, b: nat)
    requires a <= b
    ensures a / TWO_64 <= b / TWO_64
  {
  }

  /** Around `Skipped` the positions jump by two. */
  lemma {:induction false} SkippedIsSkipped(span: U64, random: U64)
    requires span > TWO_63
    ensures 1 <= Skipped(span) < TWO_63 && Position(span, random) != Skipped(span)
  {
    var more := 2 * (span - TWO_63) + 1;
    var q := Skipped(span);
    RoundUp(TWO_64, more);
    assert TWO_64 <= q * more < TWO_64 + more;
    SmallQuotient(q, more);
    Jump(span, q, more);
    if random < q {
      PositionMonotone(span, random, q - 1);
    } else {
      PositionMonotone(span, q, random);
    }
  }

  lemma {:induction false} SmallQuotient(q: nat, more: nat)
    requires 3 <= more < TWO_64 && TWO_64 <= q * more < TWO_64 + more
    ensures 1 <= q < TWO_63
  {
    if q >= TWO_63 {
      assert (q - 1) * more < TWO_64;
      ProductBelow(TWO_63 - 1, 3, q - 1, more);
    }
  }

  lemma {:induction false} Jump(span: U64, q: nat, more: nat)
    requires span > TWO_63 && more == 2 * (span - TWO_63) + 1
    requires 1 <= q < TWO_63 && TWO_64 <= q * more < TWO_64 + more
    ensures Position(span, q - 1) == q - 1 && Position(span, q) == q + 1
  {
    var width := 2 * span + 1;
    assert width == TWO_64 + more;
    assert (q - 1) * width == (q - 1) * TWO_64 + (q - 1) * more;
    assert q * width == q * TWO_64 + q * more;
    assert (q - 1) * more < TWO_64;
    ProductBelow(q, width, TWO_63, 2 * TWO_64);
    ProductBelow(q - 1, width, q, width);
    assert q * width <= TWO_63 * (2 * TWO_64) - 1 by { ProductBelow(q, width, TWO_63 - 1, 2 * TWO_64); }
    Quotient((q - 1) * width, q - 1);
    Quotient(q * width, q + 1);
  }

  /** A delay inside the interval at a position that can be reached. */
  lemma {:induction false} TakenAtPosition(policy: Policy, ordinal: nat, delay: nat, random: U64)
    requires InInterval(policy, ordinal, delay)
    requires var base := Base(policy, ordinal);
             Span(policy, base) <= base && Position(Span(policy, base), random) + base == delay + Span(policy, base)
    ensures CanTake(policy, ordinal, delay)
  {
    hide Base, Span, Position;
    assert Delay(policy, ordinal, random) == delay;
  }

  /**
   For a valid policy the delays of an ordinal are exactly the values from
   `base - span` to `base + span`, cut at the maximum, if and only if the span
   is at most 2^63; beyond that some delay in between never occurs.
   */
  lemma {:induction false} DelaysAreTheInterval(policy: Policy, ordinal: nat)
    requires IsValid(policy)
    ensures (forall delay: nat :: InInterval(policy, ordinal, delay) <==> CanTake(policy, ordinal, delay))
       <==> Span(policy, Base(policy, ordinal)) <= TWO_63
  {
    hide Base, Span, Position, IsValid, Reaching, InInterval, CanTake, Delay;
    if Span(policy, Base(policy, ordinal)) <= TWO_63 {
      forall delay: nat ensures InInterval(policy, ordinal, delay) <==> CanTake(policy, ordinal, delay) {
        if CanTake(policy, ordinal, delay) { TakenWithin(policy, ordinal, delay); }
        if InInterval(policy, ordinal, delay) { IntervalIsTaken(policy, ordinal, delay); }
      }
    } else {
      var delay := NeverTaken(policy, ordinal);
    }
  }

  lemma {:induction false} TakenWithin(policy: Policy, ordinal: nat, delay: nat)
    requires CanTake(policy, ordinal, delay)
    ensures InInterval(policy, ordinal, delay)
  {
    hide Base, Span, Position, Delay;
    var random: U64 :| Delay(policy, ordinal, random) == delay;
    DelayInRange(policy, ordinal, random);
  }

  lemma {:induction false} IntervalIsTaken(policy: Policy, ordinal: nat, delay: nat)
    requires IsValid(policy) && Span(policy, Base(policy, ordinal)) <= TWO_63 && InInterval(policy, ordinal, delay)
    ensures CanTake(policy, ordinal, delay)
  {
    hide Base, Span, Position, IsValid, Reaching, Delay;
    var base := Base(policy, ordinal);
    var span := Span(policy, base);
    ValidSpan(policy, base);
    var position := delay + span - base;
    if span < TWO_63 {
      Reached(span, position);
      TakenAtPosition(policy, ordinal, delay, Reaching(span, position));
    } else {
      Identity(position);
      TakenAtPosition(policy, ordinal, delay, position);
    }
  }

  lemma {:induction false} NeverTaken(policy: Policy, ordinal: nat) returns (delay: nat)
    requires IsValid(policy) && Span(policy, Base(policy, ordinal)) > TWO_63
    ensures InInterval(policy, ordinal, delay) && !CanTake(policy, ordinal, delay)
  {
    hide Base, Span, Position, IsValid, Skipped;
    var base := Base(policy, ordinal);
    var span := Span(policy, base);
    ValidSpan(policy, base);
    SkippedIsSkipped(span, 0);
    delay := base - span + Skipped(span);
    forall random: U64 ensures Delay(policy, ordinal, random) != delay {
      SkippedIsSkipped(span, random);
    }
  }

  /** Such spans are reachable: a maximum of 2^64 - 1 with full jitter. */
  lemma {:induction false} WidestSpan()
    ensures var policy := Policy(TWO_64 - 1, TWO_64 - 1, MILLION, MILLION);
            IsValid(policy) && Span(policy, Base(policy, 0)) == TWO_64 - 1
            && !CanReach(Span(policy, Base(policy, 0)), 2 * (TWO_64 - 1))
  {
    var policy := Policy(TWO_64 - 1, TWO_64 - 1, MILLION, MILLION);
    assert Base(policy, 0) == TWO_64 - 1;
    LastIsLost(TWO_64 - 1);
  }

  method RetryDelayMs(policy: Policy, ordinal: U64, random: U64) returns (delay: U64)
    ensures delay == Delay(policy, ordinal, random)
  {
    hide Times, Span, Position;
    var base: U64 := Min(policy.initial, policy.max);
    for i := 0 to ordinal
      invariant base == Base(policy, i)
    {
      base := Min(Times(base, policy.multiplier) / MILLION, policy.max);
    }
    var span := Span(policy, base);
    if span == 0 {
      return base;
    }
    var position := Position(span, random);
    PositionInRange(span, random);
    var adjusted: nat;
    if position >= span {
      adjusted := base + (position - span);
    } else {
      adjusted := if base >= span - position then base - (span - position) else 0;
    }
    return Min(adjusted, policy.max);
  }
}
