/** The waits of the retry policy (retry.go), in nanoseconds of a 64-bit Duration. */
module Backoff {

  const SECOND: int := 1_000_000_000
  const MAX_WAIT: int := 60 * SECOND
  const DEFAULT_RETRY_WAIT := 5
  const TWO_63: int := 0x8000_0000_0000_0000
  const TWO_62: int := 0x4000_0000_0000_0000

  predicate IsInt64(x: int) {
    -TWO_63 <= x < TWO_63
  }

  /** The value a 64-bit operation leaves for the exact result `x`. */
  function Wrap(x: int): (r: int)
    ensures IsInt64(r)
    ensures IsInt64(x) ==> r == x
  {
    (x + TWO_63) % (2 * TWO_63) - TWO_63
  }

  /** The sleep after a 429: retry_after seconds, 5 when not positive. */
  function RateWait(retryAfter: int): int {
    Wrap((if retryAfter <= 0 then DEFAULT_RETRY_WAIT else retryAfter) * SECOND)
  }

  /** The sleep is 5 seconds without a positive retry_after; else it is retry_after
      seconds exactly up to the longest whole number of seconds a Duration holds. */
  lemma RateWaitExactly(retryAfter: int)
    requires IsInt64(retryAfter)
    ensures retryAfter <= 0 ==> RateWait(retryAfter) == 5_000_000_000
    ensures retryAfter > 0 ==> (RateWait(retryAfter) == retryAfter * SECOND <==> retryAfter <= 9_223_372_036)
  {
  }

  // ----- The nominal backoff -----

  /** `steps` rounds of the doubling loop, which stops at the cap. */
  function Doubled(wait: int, steps: nat): int
    decreases steps
  {
    if steps == 0 then wait
    else
      var next := Wrap(wait * 2);
      if next >= MAX_WAIT then MAX_WAIT else Doubled(next, steps - 1)
  }

  function Nominal(attempt: int, base: int): int {
    Doubled(base, if attempt > 1 then attempt - 1 else 0)
  }

  function Pow2(n: nat): (p: nat)
    ensures p >= 1
  {
    if n == 0 then 1 else 2 * Pow2(n - 1)
  }

  function Min(a: int, b: int): int {
    if a < b then a else b
  }

  /** The formula of the documentation: base * factor^(attempt - 1), capped. */
  function Documented(attempt: int, base: int): int
    requires attempt >= 1
  {
    Min(base * Pow2(attempt - 1), MAX_WAIT)
  }

  /** What the loop computes: the same, but capped from the second attempt on only. */
  function ClosedForm(attempt: int, base: int): int {
    if attempt <= 1 then base else Min(base * Pow2(attempt - 1), MAX_WAIT)
  }

  lemma TimesPow2(base: int, n: nat)
    requires n > 0
    ensures base * Pow2(n) == (base * 2) * Pow2(n - 1)
  {
  }

  lemma AtLeastBase(base: int, n: nat)
    requires base >= 0
    ensures base * Pow2(n) >= base
    decreases n
  {
  }

  lemma {:induction false} DoubledIs(base: int, steps: nat)
    requires 1 <= base < TWO_62
    ensures Doubled(base, steps) == if steps == 0 then base else Min(base * Pow2(steps), MAX_WAIT)
    decreases steps
  {
    if steps == 0 {
    } else {
      TimesPow2(base, steps);
      if base * 2 >= MAX_WAIT {
        AtLeastBase(base * 2, steps - 1);
      } else {
        DoubledIs(base * 2, steps - 1);
      }
    }
  }

  /** Go's loop: doubling by machine multiplication, leaving at the cap. For
      bases below 2^62 the result is the closed form at every attempt. */
  method UncappedWait(attempt: int, base: int) returns (wait: int)
    ensures wait == Nominal(attempt, base)
    ensures 1 <= base < TWO_62 ==> wait == ClosedForm(attempt, base)
  {
    wait := base;
    var i := 1;
    while i < attempt
      invariant 1 <= i && (attempt >= 1 ==> i <= attempt)
      invariant Doubled(wait, if i < attempt then attempt - i else 0) == Nominal(attempt, base)
    {
      wait := Wrap(wait * 2);
      if wait >= MAX_WAIT {
        wait := MAX_WAIT;
        break;
      }
      i := i + 1;
    }
    if 1 <= base < TWO_62 && attempt >= 1 { DoubledIs(base, attempt - 1); }
  }

  /** The waits follow the documented formula at every attempt if and only if the base is at most the cap. */
  lemma DocumentedExactly(base: int)
    requires 1 <= base < TWO_63
    ensures (forall attempt :: attempt >= 1 ==> Nominal(attempt, base) == Documented(attempt, base))
            <==> base <= MAX_WAIT
  {
    if base <= MAX_WAIT {
      forall attempt | attempt >= 1 ensures Nominal(attempt, base) == Documented(attempt, base) {
        DoubledIs(base, attempt - 1);
      }
    } else {
      assert base * Pow2(0) == base;
      assert Nominal(1, base) != Documented(1, base);
    }
  }

  /** A base of 61 seconds is slept in full before the first retry, although the formula says 60. */
  lemma UncappedFirstWaitExample()
    ensures Nominal(1, 61 * SECOND) == 61 * SECOND && Documented(1, 61 * SECOND) == 60 * SECOND
  {
  }

  /** The wait is the closed form at every attempt if and only if the base is
      below 2^62 ns, where the first doubling still fits 64 bits. */
  lemma NominalExactly(base: int)
    requires 1 <= base < TWO_63
    ensures (forall attempt :: Nominal(attempt, base) == ClosedForm(attempt, base)) <==> base < TWO_62
  {
    if base < TWO_62 {
      forall attempt ensures Nominal(attempt, base) == ClosedForm(attempt, base) {
        if attempt >= 1 { DoubledIs(base, attempt - 1); }
      }
    } else {
      assert base * Pow2(1) == base * 2;
      assert Wrap(base * 2) == base * 2 - 2 * TWO_63;
      assert Doubled(Wrap(base * 2), 0) < 0;
      assert Nominal(2, base) != ClosedForm(2, base);
    }
  }

  lemma NominalRange(attempt: nat, base: int)
    requires 1 <= base <= MAX_WAIT && attempt >= 1
    ensures base <= Nominal(attempt, base) <= Nominal(attempt + 1, base) <= MAX_WAIT
  {
    DoubledIs(base, attempt - 1);
    DoubledIs(base, attempt);
    AtLeastBase(base, attempt - 1);
    assert base * Pow2(attempt) == 2 * (base * Pow2(attempt - 1));
  }

  /** The waits never fall if and only if the base is at most the cap; a longer
      base is slept once, uncapped, and then drops to the cap. */
  lemma MonotoneExactly(base: int)
    requires 1 <= base < TWO_62
    ensures (forall attempt :: attempt >= 1 ==> Nominal(attempt, base) <= Nominal(attempt + 1, base))
            <==> base <= MAX_WAIT
    ensures base > MAX_WAIT ==>
              Nominal(1, base) == base && forall attempt :: attempt >= 2 ==> Nominal(attempt, base) == MAX_WAIT
  {
    if base <= MAX_WAIT {
      forall attempt | attempt >= 1 ensures Nominal(attempt, base) <= Nominal(attempt + 1, base) {
        NominalRange(attempt, base);
      }
    } else {
      assert Nominal(1, base) > Nominal(1 + 1, base);
    }
  }

  // ----- The jittered backoff -----

  /** Conversion from float64 to Duration drops the fraction, toward zero. */
  function Truncate(x: real): int {
    if x >= 0.0 then x.Floor else -((-x).Floor)
  }

  /** A wait moved by up to a quarter of itself; `draw` is the random number in [0, 1). */
  function Jittered(wait: int, draw: real): int {
    var jitter := wait as real * 0.25;
    Truncate(wait as real + (draw * 2.0 * jitter - jitter))
  }

  function BackoffWait(attempt: int, base: int, draw: real): int {
    Jittered(Nominal(attempt, base), draw)
  }

  /** A jittered wait is three quarters of the wait plus the drawn share of one half of it, truncated. */
  lemma JitteredIs(wait: int, draw: real)
    requires wait >= 0 && 0.0 <= draw < 1.0
    ensures Jittered(wait, draw) == (wait as real * (0.75 + draw / 2.0)).Floor
  {
    var w := wait as real;
    var x := w * (0.75 + draw / 2.0);
    assert w * (draw / 2.0) == draw * 2.0 * (w * 0.25);
    assert w * (0.75 + draw / 2.0) == w * 0.75 + w * (draw / 2.0);
    assert x == w + (draw * 2.0 * (w * 0.25) - w * 0.25);
    assert w * (0.75 + draw / 2.0) >= 0.0 by { TimesMonotoneOrZero(w, 0.75 + draw / 2.0); }
  }

  lemma TimesMonotoneOrZero(a: real, b: real)
    requires a >= 0.0 && b >= 0.0
    ensures a * b >= 0.0
  {
  }

  /** The wait before the n-th retry, for any base up to the cap: the base
      doubled n - 1 times, at most 60 seconds, and moved by at most a quarter. */
  lemma BackoffIs(attempt: nat, base: int, draw: real)
    requires 1 <= attempt && 1 <= base <= 60_000_000_000 && 0.0 <= draw < 1.0
    ensures var nominal := Min(base * Pow2(attempt - 1), 60_000_000_000);
            BackoffWait(attempt, base, draw) == (nominal as real * (0.75 + draw / 2.0)).Floor
  {
    hide Jittered;
    DocumentedExactly(base);
    AtLeastBase(base, attempt - 1);
    assert Nominal(attempt, base) == Documented(attempt, base);
    JitteredIs(Nominal(attempt, base), draw);
  }

  /** The waits that README.md:375-376 lists for the default base of two seconds. */
  lemma DefaultWaits(attempt: nat)
    requires attempt >= 1
    ensures Nominal(attempt, 2_000_000_000) == 1_000_000_000 * (match attempt
                                                                case 1 => 2
                                                                case 2 => 4
                                                                case 3 => 8
                                                                case 4 => 16
                                                                case 5 => 32
                                                                case _ => 60)
  {
    assert Pow2(0) == 1 && Pow2(1) == 2 && Pow2(2) == 4 && Pow2(3) == 8 && Pow2(4) == 16 && Pow2(5) == 32;
    if attempt >= 6 { PowGrows(5, attempt - 1); }
    DocumentedExactly(2_000_000_000);
    assert Nominal(attempt, 2_000_000_000) == Documented(attempt, 2_000_000_000);
  }

  lemma {:induction false} PowGrows(m: nat, n: nat)
    requires m <= n
    ensures Pow2(m) <= Pow2(n)
  {
    if m == n {
    } else {
      PowGrows(m, n - 1);
    }
  }

  /** The waits that a quarter more cannot push out of 64 bits. */
  predicate RoomForJitter(wait: int) {
    5 * wait <= 4 * TWO_63
  }

  lemma JitterBounds(attempt: int, base: int, draw: real)
    requires Nominal(attempt, base) >= 1 && RoomForJitter(Nominal(attempt, base)) && 0.0 <= draw < 1.0
    ensures 3 * Nominal(attempt, base) - 4 < 4 * BackoffWait(attempt, base, draw) < 5 * Nominal(attempt, base)
    ensures 0 <= BackoffWait(attempt, base, draw) < TWO_63
  {
    hide Nominal;
    JitteredBetween(Nominal(attempt, base), draw);
  }

  lemma JitteredBetween(wait: int, draw: real)
    requires wait >= 1 && 0.0 <= draw < 1.0
    ensures 3 * wait - 4 < 4 * Jittered(wait, draw) < 5 * wait && Jittered(wait, draw) >= 0
  {
    var w := wait as real;
    var jitter := w * 0.25;
    var swing := draw * 2.0 * jitter;
    FractionOf(draw, 2.0 * jitter);
    assert swing == draw * (2.0 * jitter);
    var x := w + (swing - jitter);
    assert 0.75 * w <= x < 1.25 * w;
  }

  /** Every draw leaves a jittered wait that a Duration holds if and only if the
      wait is at most 2^65 / 5; beyond, some draw makes the conversion overflow. */
  lemma JitterFitsExactly(wait: int)
    requires 1 <= wait < TWO_63
    ensures (forall draw :: 0.0 <= draw < 1.0 ==> IsInt64(Jittered(wait, draw))) <==> RoomForJitter(wait)
  {
    assert Nominal(1, wait) == wait;
    if RoomForJitter(wait) {
      forall draw | 0.0 <= draw < 1.0 ensures IsInt64(Jittered(wait, draw)) {
        JitterBounds(1, wait, draw);
      }
    } else {
      var draw := OverflowingDraw(wait);
      assert !IsInt64(Jittered(wait, draw));
    }
  }

  lemma OverflowingDraw(wait: int) returns (draw: real)
    requires 1 <= wait < TWO_63 && !RoomForJitter(wait)
    ensures 0.0 <= draw < 1.0 && Jittered(wait, draw) == TWO_63
  {
    var w, limit := wait as real, TWO_63 as real;
    var ratio := limit / w;
    assert w * ratio == limit;
    TimesMonotone(ratio, 1.0, w);
    TimesMonotone(1.25, ratio, w);
    draw := 2.0 * (ratio - 0.75);
    var jitter := w * 0.25;
    assert draw * 2.0 * jitter == w * ratio - 0.75 * w;
    assert w + (draw * 2.0 * jitter - jitter) == limit;
  }

  lemma TimesMonotone(a: real, b: real, w: real)
    requires w > 0.0
    ensures a <= b ==> a * w <= b * w
  {
  }

  /** For a base below 2^62 ns every backoff of every attempt fits. */
  lemma BackoffFits(attempt: int, base: int, draw: real)
    requires attempt >= 1 && 1 <= base < TWO_62 && 0.0 <= draw < 1.0
    ensures Nominal(attempt, base) >= 1 && RoomForJitter(Nominal(attempt, base))
    ensures 0 <= BackoffWait(attempt, base, draw) < TWO_63
  {
    DoubledIs(base, attempt - 1);
    AtLeastBase(base, attempt - 1);
    JitterBounds(attempt, base, draw);
  }

  lemma FractionOf(draw: real, whole: real)
    requires 0.0 <= draw < 1.0 && whole > 0.0
    ensures 0.0 <= draw * whole < whole
  {
  }

  // ----- Sums over the first n retries -----

  function NominalSum(n: nat, base: int): int {
    if n == 0 then 0 else NominalSum(n - 1, base) + Nominal(n, base)
  }

  function JitteredSum(n: nat, base: int, draws: nat -> real, from: nat): int {
    if n == 0 then 0 else JitteredSum(n - 1, base, draws, from) + BackoffWait(n, base, draws(from + n - 1))
  }

  /** How many waits stay below the cap. */
  function BelowCap(base: int): nat
    requires base > 0
    decreases MAX_WAIT - base
  {
    if base >= MAX_WAIT then 0 else 1 + BelowCap(2 * base)
  }

  lemma {:induction false} BelowCapIs(base: int, n: nat)
    requires base > 0
    ensures n < BelowCap(base) <==> base * Pow2(n) < MAX_WAIT
    decreases n
  {
    if n == 0 {
    } else {
      TimesPow2(base, n);
      if base >= MAX_WAIT { AtLeastBase(base, n); } else { BelowCapIs(2 * base, n - 1); }
    }
  }

  /** The total wait of n retries: base * (2^m - 1) + 60s * (n - m), where m
      counts the waits below the cap; a base above the cap counts once. */
  function NominalTotal(n: nat, base: int): int
    requires base > 0
  {
    if n > 0 && base > MAX_WAIT then base + MAX_WAIT * (n - 1)
    else
      var m := Min(n, BelowCap(base));
      base * (Pow2(m) - 1) + MAX_WAIT * (n - m)
  }

  /** The nominal waits of n retries sum to the closed form. */
  lemma {:induction false} NominalSumIs(n: nat, base: int)
    requires 0 < base < TWO_62
    ensures NominalSum(n, base) == NominalTotal(n, base)
  {
    if n == 0 {
    } else {
      NominalSumIs(n - 1, base);
      if base > MAX_WAIT {
        MonotoneExactly(base);
      } else {
        DoubledIs(base, n - 1);
        BelowCapIs(base, n - 1);
        SumStep(n, base);
      }
    }
  }

  lemma SumStep(n: nat, base: int)
    requires 0 < n && 0 < base <= MAX_WAIT
    requires n - 1 < BelowCap(base) <==> base * Pow2(n - 1) < MAX_WAIT
    ensures NominalTotal(n, base) ==
            NominalTotal(n - 1, base) + if n == 1 then base else Min(base * Pow2(n - 1), MAX_WAIT)
  {
    if n <= BelowCap(base) {
      assert Pow2(n) == 2 * Pow2(n - 1);
      assert base * (Pow2(n) - 1) == base * (Pow2(n - 1) - 1) + base * Pow2(n - 1);
    } else if n == 1 {
      assert base * Pow2(0) == base;
    }
  }

  /** The slept total of n retries lies within 3/4 and 5/4 of the nominal total, up to n truncations. */
  lemma {:induction false} JitteredSumBounds(n: nat, base: int, draws: nat -> real, from: nat)
    requires 0 < base < TWO_62
    requires forall k :: 0.0 <= draws(k) < 1.0
    ensures 3 * NominalSum(n, base) - 4 * n <= 4 * JitteredSum(n, base, draws, from) <= 5 * NominalSum(n, base)
  {
    if n == 0 {
    } else {
      JitteredSumBounds(n - 1, base, draws, from);
      BackoffFits(n, base, draws(from + n - 1));
      JitterBounds(n, base, draws(from + n - 1));
    }
  }
}
