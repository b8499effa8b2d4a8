/**
 Backoff delays and the counters that bound a retry run. Delays are exact reals, except where `f64` overflows to infinity
 and that shows; rounding is not modelled.
 */
module Retry {
  import opened Wrappers
  import opened FailureText

  datatype RetryPolicy = RetryPolicy(maxAttempts: u32, baseDelaySecs: u64, maxDelaySecs: u64, jitter: bool)

  function Pow2(n: nat): (p: nat)
    ensures p >= 1
  {
    if n == 0 then 1 else 2 * Pow2(n - 1)
  }

  /** `base * 2.powi(e)` */
  function Exponential(base: nat, e: int): (delay: real)
    ensures delay >= 0.0
    decreases if e < 0 then -e else e
  {
    if e == 0 then base as real
    else if e > 0 then 2.0 * Exponential(base, e - 1)
    else Exponential(base, e + 1) / 2.0
  }

  /** `attempt.saturating_sub(1) as i32`: the cast wraps for attempts above 2^31. */
  function Exponent(attempt: u32): int {
    var e := if attempt == 0 then 0 else attempt - 1;
    if e < TWO_TO_THE_32 / 2 then e else e - TWO_TO_THE_32
  }

  function Min(a: real, b: real): real { if a < b then a else b }
  function Max(a: real, b: real): real { if a < b then b else a }

  /** From this exponent on the power is infinite in `f64`. */
  const INFINITE_EXPONENT := 1024

  /**
   `exp.min(max_delay)`. An infinite power of two exceeds every cap, as its exact value does, but zero times it is not a
   number, and `min` then returns its other argument.
   */
  function Capped(attempt: u32, policy: RetryPolicy): real {
    if policy.baseDelaySecs == 0 && Exponent(attempt) >= INFINITE_EXPONENT then policy.maxDelaySecs as real
    else Min(Exponential(policy.baseDelaySecs, Exponent(attempt)), policy.maxDelaySecs as real)
  }

  /** A uniform sample from `[0, 1)`, as the random source yields it. */
  predicate IsSample(random: real) {
    0.0 <= random < 1.0
  }

  function ComputeBackoff(attempt: u32, policy: RetryPolicy, random: real): (delay: real)
    ensures delay >= 1.0
  {
    Max(Jittered(Capped(attempt, policy), policy.jitter, random), 1.0)
  }

  function Jittered(delay: real, jitter: bool, random: real): real {
    if jitter then delay * (0.5 + random * 0.5) else delay
  }

  lemma {:induction false} Pow2Adds(m: nat, n: nat)
    ensures Pow2(m + n) == Pow2(m) * Pow2(n)
  {
    if m > 0 {
      Pow2Adds(m - 1, n);
      assert Pow2(m + n) == 2 * (Pow2(m - 1) * Pow2(n)) == Pow2(m) * Pow2(n);
    }
  }

  lemma Pow2Grows(m: nat, n: nat)
    requires m <= n
    ensures Pow2(m) <= Pow2(n)
  {
    Pow2Adds(m, n - m);
  }

  lemma Pow2Of64()
    ensures Pow2(64) == TWO_TO_THE_64
  {
    assert Pow2(4) == 16;
    Pow2Doubles(4, 16);
    Pow2Doubles(8, 0x100);
    Pow2Doubles(16, 0x1_0000);
    Pow2Doubles(32, 0x1_0000_0000);
  }

  lemma Pow2Doubles(n: nat, p: nat)
    requires Pow2(n) == p
    ensures Pow2(2 * n) == p * p
  {
    Pow2Adds(n, n);
  }

  /** Multiplying by a base delay keeps the order of the factors. */
  lemma ScaleGrows(base: real, x: real, y: real)
    requires base >= 0.0 && x <= y
    ensures base * x <= base * y
  {
  }

  lemma {:induction false} ExponentialIsProduct(base: nat, e: nat)
    ensures Exponential(base, e) == (base * Pow2(e)) as real
  {
    if e > 0 {
      ExponentialIsProduct(base, e - 1);
      assert base * Pow2(e) == 2 * (base * Pow2(e - 1));
    }
  }

  lemma {:induction false} ExponentialGrows(base: nat, d: int, e: int)
    requires d <= e
    ensures Exponential(base, d) <= Exponential(base, e)
    decreases e - d
  {
    if d < e {
      ExponentialGrows(base, d, e - 1);
    }
  }

  lemma {:induction false} NegativeExponentsDivide(base: nat, k: nat)
    ensures Exponential(base, 0 - k) * Pow2(k) as real == base as real
  {
    if k > 0 {
      NegativeExponentsDivide(base, k - 1);
      var x, p := Exponential(base, 1 - k), Pow2(k - 1) as real;
      assert Exponential(base, 0 - k) == x / 2.0 && Pow2(k) as real == 2.0 * p;
      assert x / 2.0 * (2.0 * p) == x * p;
    }
  }

  lemma BelowOne(x: real, p: real, base: real)
    requires x >= 0.0 && p >= 0.0 && x * p == base && base < p
    ensures x < 1.0
  {
    if x >= 1.0 {
      ScaleGrows(p, 1.0, x);
    }
  }

  lemma QuotientIs(x: real, p: real, base: real)
    requires p > 0.0 && x * p == base
    ensures x == base / p
  {
  }

  lemma CappedGrowsWithExponent(a: u32, b: u32, policy: RetryPolicy)
    requires Exponent(a) <= Exponent(b)
    ensures Capped(a, policy) <= Capped(b, policy)
  {
    ExponentialGrows(policy.baseDelaySecs, Exponent(a), Exponent(b));
  }

  /**
   Up to attempt 2^31 the delay never shrinks, and it is the capped doubling of the base, floored at one second. A base of
   zero stays at one second up to attempt 1024 and waits for the cap from there on.
   */
  lemma BackoffShape(a: u32, b: u32, policy: RetryPolicy, r: real, r': real)
    requires 1 <= a <= b <= TWO_TO_THE_32 / 2 && !policy.jitter
    ensures ComputeBackoff(a, policy, r)
            == if policy.baseDelaySecs >= 1 || a <= 1024
               then Max(1.0, Min((policy.baseDelaySecs * Pow2(a - 1)) as real, policy.maxDelaySecs as real))
               else Max(1.0, policy.maxDelaySecs as real)
    ensures ComputeBackoff(a, policy, r) <= ComputeBackoff(b, policy, r')
    ensures ComputeBackoff(0, policy, r) == ComputeBackoff(1, policy, r)
  {
    CappedGrowsWithExponent(a, b, policy);
    ExponentialIsProduct(policy.baseDelaySecs, a - 1);
    FloorGrows(Capped(a, policy), Capped(b, policy));
  }

  /** Past attempt 2^31 the exponent is negative: the base is divided, by less and less, and never exceeds a quarter. */
  lemma BackoffAfterTheCast(attempt: u32, policy: RetryPolicy, r: real)
    requires attempt > TWO_TO_THE_32 / 2 && !policy.jitter
    ensures var divisor := Pow2(TWO_TO_THE_32 + 1 - attempt) as real;
            divisor >= 4.0 && ComputeBackoff(attempt, policy, r)
                              == Max(1.0, Min(policy.baseDelaySecs as real / divisor, policy.maxDelaySecs as real))
  {
    hide Exponential;
    var k := TWO_TO_THE_32 + 1 - attempt;
    NegativeExponentsDivide(policy.baseDelaySecs, k);
    QuotientIs(Exponential(policy.baseDelaySecs, 0 - k), Pow2(k) as real, policy.baseDelaySecs as real);
    Pow2Grows(2, k);
    assert Pow2(2) == 4;
    assert Exponent(attempt) == 0 - k;
  }

  /** Jitter takes at most half of the capped delay away. */
  lemma JitterBounds(attempt: u32, policy: RetryPolicy, random: real)
    requires IsSample(random)
    ensures Max(1.0, Capped(attempt, policy) / 2.0) <= ComputeBackoff(attempt, policy, random)
            <= Max(1.0, Capped(attempt, policy))
  {
    CappedIsNotNegative(attempt, policy);
    var capped := Capped(attempt, policy);
    var delay := Jittered(capped, policy.jitter, random);
    JitterKeepsHalf(capped, policy.jitter, random);
    FloorGrows(capped / 2.0, delay);
    FloorGrows(delay, capped);
  }

  /**
   The jitter uses its whole range evenly: the smallest sample halves the delay, the rest of it is added in proportion to
   the sample, and so a larger sample never shortens it.
   */
  lemma JitterSpreads(attempt: u32, policy: RetryPolicy, r: real, r': real)
    requires policy.jitter && IsSample(r) && IsSample(r') && r <= r'
    ensures ComputeBackoff(attempt, policy, r) == Max(1.0, (Capped(attempt, policy) + r * Capped(attempt, policy)) / 2.0)
    ensures ComputeBackoff(attempt, policy, 0.0) == Max(1.0, Capped(attempt, policy) / 2.0)
    ensures ComputeBackoff(attempt, policy, r) <= ComputeBackoff(attempt, policy, r')
    ensures Capped(attempt, policy) > 2.0 && r < r' ==>
              ComputeBackoff(attempt, policy, r) < ComputeBackoff(attempt, policy, r')
  {
    var capped := Capped(attempt, policy);
    CappedIsNotNegative(attempt, policy);
    JitterGrows(capped, r, r');
    JitterIsLinear(capped, r);
    FloorGrows(Jittered(capped, true, r), Jittered(capped, true, r'));
    JitterKeepsHalf(capped, true, r);
  }

  lemma JitterIsLinear(delay: real, r: real)
    ensures Jittered(delay, true, r) == (delay + r * delay) / 2.0
  {
  }

  lemma JitterGrows(delay: real, r: real, r': real)
    requires delay >= 0.0 && r <= r'
    ensures Jittered(delay, true, r) <= Jittered(delay, true, r')
    ensures delay > 0.0 && r < r' ==> Jittered(delay, true, r) < Jittered(delay, true, r')
  {
    var gap := (r' - r) * 0.5;
    assert Jittered(delay, true, r') - Jittered(delay, true, r) == delay * gap;
    if delay > 0.0 && gap > 0.0 {
      assert delay * gap > 0.0;
    }
    ScaleGrows(delay, 0.0, gap);
  }

  lemma FloorGrows(x: real, y: real)
    requires x <= y
    ensures Max(1.0, x) == Max(x, 1.0) <= Max(y, 1.0) == Max(1.0, y)
  {
  }

  lemma JitterKeepsHalf(delay: real, jitter: bool, random: real)
    requires delay >= 0.0 && IsSample(random)
    ensures delay / 2.0 <= Jittered(delay, jitter, random)
    ensures Jittered(delay, jitter, random) <= delay
  {
    var factor := 0.5 + random * 0.5;
    ScaleGrows(delay, 0.5, factor);
    ScaleGrows(delay, factor, 1.0);
  }

  lemma CappedIsNotNegative(attempt: u32, policy: RetryPolicy)
    ensures 0.0 <= Capped(attempt, policy) <= policy.maxDelaySecs as real
  {
  }

  /**
   Past attempt 2^31 the exponent turns negative and the delay falls back to one second, so over all
   attempts delays never shrink only for a policy whose cap leaves no room to grow.
   */
  lemma NeverShrinksIffCapIsOneSecond(policy: RetryPolicy)
    requires !policy.jitter
    ensures (forall a: u32, b: u32 :: a <= b ==> ComputeBackoff(a, policy, 0.0) <= ComputeBackoff(b, policy, 0.0))
            <==> policy.maxDelaySecs <= 1
  {
    if policy.maxDelaySecs <= 1 {
      forall a: u32 ensures ComputeBackoff(a, policy, 0.0) == 1.0 {
        CappedIsNotNegative(a, policy);
      }
    } else {
      DelayDropsAfterTwoToThe31(policy);
    }
  }

  lemma CapIsReached(policy: RetryPolicy)
    ensures Capped(TWO_TO_THE_32 / 2, policy) == policy.maxDelaySecs as real
  {
    hide Exponential;
    var last := TWO_TO_THE_32 / 2 - 1;
    if policy.baseDelaySecs >= 1 {
      Pow2Of64();
      Pow2Grows(64, last);
      ExponentialIsProduct(policy.baseDelaySecs, last);
      BaseIsAtMostDoubled(policy.baseDelaySecs, Pow2(last));
    }
  }

  lemma NegativePowerVanishes(policy: RetryPolicy)
    ensures Capped(TWO_TO_THE_32 / 2 + 1, policy) < 1.0
  {
    hide Exponential;
    var half := TWO_TO_THE_32 / 2;
    Pow2Of64();
    Pow2Grows(64, half);
    NegativeExponentsDivide(policy.baseDelaySecs, half);
    BelowOne(Exponential(policy.baseDelaySecs, -half), Pow2(half) as real, policy.baseDelaySecs as real);
  }

  lemma DelayDropsAfterTwoToThe31(policy: RetryPolicy)
    requires !policy.jitter && policy.maxDelaySecs > 1
    ensures ComputeBackoff(TWO_TO_THE_32 / 2, policy, 0.0) == policy.maxDelaySecs as real
    ensures ComputeBackoff(TWO_TO_THE_32 / 2 + 1, policy, 0.0) == 1.0
  {
    hide Capped;
    CapIsReached(policy);
    NegativePowerVanishes(policy);
  }

  // ---------- Retry runs ----------

  /** A retry context on values; the counters wrap as the fields of `RetryContext` do in a release build. */
  datatype RetryState = RetryState(attempt: u32, maxAttempts: u32, cumulativeBackoffSecs: u64,
                                   lastFailureClass: Option<FailureClass>)
  {
    function AfterFailure(failure: FailureClass, backoffSecs: nat): RetryState {
      this.(attempt := (attempt + 1) % TWO_TO_THE_32,
            cumulativeBackoffSecs := (cumulativeBackoffSecs + backoffSecs) % TWO_TO_THE_64,
            lastFailureClass := Some(failure))
    }

    predicate ShouldRetry() {
      attempt < maxAttempts && (lastFailureClass == Some(Transient) || lastFailureClass == Some(Stall))
    }
  }

  class RetryContext {
    var attempt: u32
    const maxAttempts: u32
    var cumulativeBackoffSecs: u64
    var lastFailureClass: Option<FailureClass>

    ghost function State(): RetryState
      reads this
    {
      RetryState(attempt, maxAttempts, cumulativeBackoffSecs, lastFailureClass)
    }

    constructor (maxAttempts: u32)
      ensures State() == RetryState(0, maxAttempts, 0, None)
    {
      this.attempt := 0;
      this.maxAttempts := maxAttempts;
      this.cumulativeBackoffSecs := 0;
      this.lastFailureClass := None;
    }

    method RecordFailure(failure: FailureClass, backoffSecs: u64)
      modifies this
      ensures State() == old(State()).AfterFailure(failure, backoffSecs)
    {
      attempt := (attempt + 1) % TWO_TO_THE_32;
      cumulativeBackoffSecs := (cumulativeBackoffSecs + backoffSecs) % TWO_TO_THE_64;
      lastFailureClass := Some(failure);
    }

    method ShouldRetry() returns (retry: bool)
      ensures retry == State().ShouldRetry()
    {
      retry := attempt < maxAttempts && (lastFailureClass == Some(Transient) || lastFailureClass == Some(Stall));
    }
  }

  /** One recorded failure: its class and the whole seconds of backoff recorded with it. */
  datatype Failure = Failure(failureClass: FailureClass, backoffSecs: nat)

  /** `secs` is what the runner records for this attempt under some random sample. */
  ghost predicate IsBackoff(policy: RetryPolicy, attempt: u32, secs: nat) {
    exists random :: IsSample(random) && secs == ComputeBackoff(attempt, policy, random).Floor
  }

  function Replay(maxAttempts: u32, failures: seq<Failure>): RetryState {
    if failures == [] then
      RetryState(0, maxAttempts, 0, None)
    else
      var last := failures[|failures| - 1];
      Replay(maxAttempts, failures[..|failures| - 1]).AfterFailure(last.failureClass, last.backoffSecs)
  }

  /** After the first, failures happen only while `should_retry` holds. */
  ghost predicate RetriesOnlyWhenAllowed(maxAttempts: u32, failures: seq<Failure>) {
    forall i :: 0 < i < |failures| ==> Replay(maxAttempts, failures[..i]).ShouldRetry()
  }

  /** Each failure is recorded with the backoff of the attempt that comes next. */
  ghost predicate RecordsBackoffs(policy: RetryPolicy, failures: seq<Failure>) {
    forall i :: 0 <= i < |failures| ==> RecordsBackoffAt(policy, failures, i)
  }

  ghost predicate RecordsBackoffAt(policy: RetryPolicy, failures: seq<Failure>, i: nat)
    requires i < |failures|
  {
    var next := (Replay(policy.maxAttempts, failures[..i]).attempt + 1) % TWO_TO_THE_32;
    IsBackoff(policy, next, failures[i].backoffSecs)
  }

  ghost predicate IsRetryRun(policy: RetryPolicy, failures: seq<Failure>) {
    RetriesOnlyWhenAllowed(policy.maxAttempts, failures) && RecordsBackoffs(policy, failures)
  }

  function AtLeastOne(n: nat): nat {
    if n > 1 then n else 1
  }

  lemma {:induction false} AttemptCountsFailures(maxAttempts: u32, failures: seq<Failure>)
    requires RetriesOnlyWhenAllowed(maxAttempts, failures)
    ensures |failures| <= AtLeastOne(maxAttempts)
    ensures Replay(maxAttempts, failures).attempt == |failures|
    ensures Replay(maxAttempts, failures).maxAttempts == maxAttempts
  {
    if failures != [] {
      var before := failures[..|failures| - 1];
      PrefixRetriesToo(maxAttempts, failures, |before|);
      AttemptCountsFailures(maxAttempts, before);
    }
  }

  /** Another attempt is allowed after a transient failure or a stall, and only as long as attempts are left. */
  lemma RetriesTransientAndStall(maxAttempts: u32, failures: seq<Failure>)
    requires RetriesOnlyWhenAllowed(maxAttempts, failures) && failures != []
    ensures Replay(maxAttempts, failures).ShouldRetry() <==>
            |failures| < maxAttempts && failures[|failures| - 1].failureClass != Permanent
    ensures !Replay(maxAttempts, []).ShouldRetry()
  {
    AttemptCountsFailures(maxAttempts, failures);
  }

  lemma PrefixRetriesToo(maxAttempts: u32, failures: seq<Failure>, n: nat)
    requires RetriesOnlyWhenAllowed(maxAttempts, failures) && n <= |failures|
    ensures RetriesOnlyWhenAllowed(maxAttempts, failures[..n])
  {
    assert forall i :: 0 <= i < n ==> failures[..n][..i] == failures[..i];
  }

  /** The seconds a run waits in all, before any wrap-around of the stored sum. */
  function TotalBackoff(failures: seq<Failure>): nat {
    if failures == [] then 0
    else TotalBackoff(failures[..|failures| - 1]) + failures[|failures| - 1].backoffSecs
  }

  /** The backoff of the n-th attempt is bounded by the cap and, for a base of at least one second, by the doubled base. */
  lemma NthBackoffIsBounded(n: u32, policy: RetryPolicy, secs: nat)
    requires n > 0 && IsBackoff(policy, n, secs)
    ensures secs <= AtLeastOne(policy.maxDelaySecs)
    ensures policy.baseDelaySecs >= 1 ==> secs <= policy.baseDelaySecs * Pow2(n - 1)
  {
    var random :| IsSample(random) && secs == ComputeBackoff(n, policy, random).Floor;
    JitterBounds(n, policy, random);
    CappedIsNotNegative(n, policy);
    if policy.baseDelaySecs >= 1 {
      CappedIsAtMostDoubled(n, policy);
      BaseIsAtMostDoubled(policy.baseDelaySecs, Pow2(n - 1));
    }
  }

  lemma CappedIsAtMostDoubled(n: u32, policy: RetryPolicy)
    requires n > 0 && policy.baseDelaySecs >= 1
    ensures Capped(n, policy) <= (policy.baseDelaySecs * Pow2(n - 1)) as real
  {
    ExponentialGrows(policy.baseDelaySecs, Exponent(n), n - 1);
    ExponentialIsProduct(policy.baseDelaySecs, n - 1);
  }

  lemma BaseIsAtMostDoubled(base: nat, p: nat)
    requires base >= 1 && p >= 1
    ensures base * p >= base && base * p >= p
  {
  }

  lemma DoublingSum(base: nat, p: nat)
    ensures base * (2 * p - 1) == base * (p - 1) + base * p
  {
  }

  /** Every entry stays below the cap. */
  ghost predicate EachIsCapped(cap: nat, failures: seq<Failure>) {
    forall i :: 0 <= i < |failures| ==> failures[i].backoffSecs <= cap
  }

  /** The n-th entry stays below the doubled base. */
  ghost predicate EachIsAtMostDoubled(base: nat, failures: seq<Failure>) {
    forall i :: 0 <= i < |failures| ==> failures[i].backoffSecs <= base * Pow2(i)
  }

  lemma BackoffAt(policy: RetryPolicy, failures: seq<Failure>, i: nat)
    requires IsRetryRun(policy, failures) && i < |failures|
    ensures i + 1 < TWO_TO_THE_32 && IsBackoff(policy, i + 1, failures[i].backoffSecs)
  {
    hide IsBackoff, Replay;
    AttemptCountsFailures(policy.maxAttempts, failures);
    PrefixRetriesToo(policy.maxAttempts, failures, i);
    AttemptCountsFailures(policy.maxAttempts, failures[..i]);
    assert RecordsBackoffAt(policy, failures, i);
  }

  lemma EntriesAreBounded(policy: RetryPolicy, failures: seq<Failure>)
    requires IsRetryRun(policy, failures)
    ensures EachIsCapped(AtLeastOne(policy.maxDelaySecs), failures)
    ensures policy.baseDelaySecs >= 1 ==> EachIsAtMostDoubled(policy.baseDelaySecs, failures)
  {
    hide IsRetryRun, IsBackoff, AtLeastOne, Pow2;
    forall i | 0 <= i < |failures|
      ensures failures[i].backoffSecs <= AtLeastOne(policy.maxDelaySecs)
      ensures policy.baseDelaySecs >= 1 ==> failures[i].backoffSecs <= policy.baseDelaySecs * Pow2(i)
    {
      BackoffAt(policy, failures, i);
      NthBackoffIsBounded(i + 1, policy, failures[i].backoffSecs);
    }
  }

  lemma {:induction false} CappedTotal(cap: nat, failures: seq<Failure>)
    requires EachIsCapped(cap, failures)
    ensures TotalBackoff(failures) <= |failures| * cap
  {
    if failures != [] {
      var n := |failures|;
      CappedTotal(cap, failures[..n - 1]);
      assert n * cap == (n - 1) * cap + cap;
    }
  }

  lemma {:induction false} DoublingTotal(base: nat, failures: seq<Failure>)
    requires EachIsAtMostDoubled(base, failures)
    ensures TotalBackoff(failures) <= base * (Pow2(|failures|) - 1)
  {
    if failures != [] {
      var n := |failures|;
      DoublingTotal(base, failures[..n - 1]);
      DoublingSum(base, Pow2(n - 1));
    }
  }

  lemma {:induction false} RecordedBackoffIsTotal(maxAttempts: u32, failures: seq<Failure>)
    ensures Replay(maxAttempts, failures).cumulativeBackoffSecs == TotalBackoff(failures) % TWO_TO_THE_64
  {
    if failures != [] {
      var n := |failures|;
      RecordedBackoffIsTotal(maxAttempts, failures[..n - 1]);
      SumOfRemainders(TotalBackoff(failures[..n - 1]), failures[n - 1].backoffSecs);
    }
  }

  lemma SumOfRemainders(a: nat, b: nat)
    ensures (a % TWO_TO_THE_64 + b) % TWO_TO_THE_64 == (a + b) % TWO_TO_THE_64
  {
  }

  lemma SmallTotalIsRecordedExactly(maxAttempts: u32, failures: seq<Failure>, bound: nat)
    requires TotalBackoff(failures) <= bound
    ensures bound < TWO_TO_THE_64 ==> Replay(maxAttempts, failures).cumulativeBackoffSecs == TotalBackoff(failures)
  {
    RecordedBackoffIsTotal(maxAttempts, failures);
  }

  /**
   A retry run ends: at most `max(1, max_attempts)` failures occur. It waits at most `n * max(1, max_delay)` seconds and,
   for a base of at least one second, at most `base * (2^n - 1)`. What it recorded as waited is what it waited unless
   the former bound exceeds 64 bits.
   */
  lemma RetryRunIsBounded(policy: RetryPolicy, failures: seq<Failure>)
    requires IsRetryRun(policy, failures)
    ensures |failures| <= AtLeastOne(policy.maxAttempts)
    ensures TotalBackoff(failures) <= |failures| * AtLeastOne(policy.maxDelaySecs)
    ensures policy.baseDelaySecs >= 1 ==> TotalBackoff(failures) <= policy.baseDelaySecs * (Pow2(|failures|) - 1)
    ensures |failures| * AtLeastOne(policy.maxDelaySecs) < TWO_TO_THE_64 ==>
              Replay(policy.maxAttempts, failures).cumulativeBackoffSecs == TotalBackoff(failures)
  {
    hide RecordsBackoffs, AtLeastOne, Pow2;
    AttemptCountsFailures(policy.maxAttempts, failures);
    EntriesAreBounded(policy, failures);
    CappedTotal(AtLeastOne(policy.maxDelaySecs), failures);
    if policy.baseDelaySecs >= 1 {
      DoublingTotal(policy.baseDelaySecs, failures);
    }
    SmallTotalIsRecordedExactly(policy.maxAttempts, failures, |failures| * AtLeastOne(policy.maxDelaySecs));
  }

  // ---------- The runner's loop over error events ----------

  /** Error `i` of a run is retried: it is transient and an attempt is left. */
  predicate IsRetried(maxAttempts: u32, messages: seq<string>, i: nat)
    requires i < |messages|
  {
    ClassifyFailure(messages[i]) == Transient && i + 1 < maxAttempts
  }

  lemma WholeSeconds(attempt: u32, policy: RetryPolicy, random: real)
    requires IsSample(random)
    ensures 0 <= ComputeBackoff(attempt, policy, random).Floor < TWO_TO_THE_64
    ensures IsBackoff(policy, attempt, ComputeBackoff(attempt, policy, random).Floor)
  {
    JitterBounds(attempt, policy, random);
    CappedIsNotNegative(attempt, policy);
  }

  lemma OneMoreFailure(policy: RetryPolicy, failures: seq<Failure>, f: Failure)
    requires IsRetryRun(policy, failures)
    requires failures == [] || Replay(policy.maxAttempts, failures).ShouldRetry()
    requires IsBackoff(policy, (Replay(policy.maxAttempts, failures).attempt + 1) % TWO_TO_THE_32, f.backoffSecs)
    ensures IsRetryRun(policy, failures + [f])
    ensures Replay(policy.maxAttempts, failures + [f])
            == Replay(policy.maxAttempts, failures).AfterFailure(f.failureClass, f.backoffSecs)
  {
    hide IsBackoff, Replay;
    var longer := failures + [f];
    assert longer[..|failures|] == failures;
    forall i | 0 <= i < |failures| ensures longer[..i] == failures[..i] {
    }
    forall i | 0 <= i < |longer| ensures RecordsBackoffAt(policy, longer, i) {
      assert i < |failures| ==> RecordsBackoffAt(policy, failures, i);
    }
    ReplayOfLonger(policy.maxAttempts, failures, f);
  }

  lemma ReplayOfLonger(maxAttempts: u32, failures: seq<Failure>, f: Failure)
    ensures Replay(maxAttempts, failures + [f]) == Replay(maxAttempts, failures).AfterFailure(f.failureClass, f.backoffSecs)
  {
    assert (failures + [f])[..|failures|] == failures;
  }

  /** Whether another attempt is allowed after `n` failures, the last of which was transient. */
  lemma RetryAllowed(policy: RetryPolicy, failures: seq<Failure>)
    requires IsRetryRun(policy, failures) && failures != []
    requires Replay(policy.maxAttempts, failures).lastFailureClass == Some(Transient)
    ensures Replay(policy.maxAttempts, failures).ShouldRetry() <==> |failures| < policy.maxAttempts
  {
    AttemptCountsFailures(policy.maxAttempts, failures);
  }

  /**
   The error events of one run, handled until one is not retried. `failures` is what was recorded: a retry run in the
   sense above, so its bounds hold for the context. The run fails at the first error that is not retried, and only there.
   */
  method HandleErrors(policy: RetryPolicy, messages: seq<string>, samples: seq<real>)
    returns (ctx: RetryContext, failed: bool, ghost failures: seq<Failure>)
    requires |samples| == |messages| && forall i :: 0 <= i < |samples| ==> IsSample(samples[i])
    ensures fresh(ctx) && ctx.State() == Replay(policy.maxAttempts, failures)
    ensures IsRetryRun(policy, failures) && |failures| <= |messages|
    ensures forall i :: 0 <= i < |failures| ==> failures[i].failureClass == ClassifyFailure(messages[i])
    ensures forall i :: 0 <= i < |failures| - 1 ==> IsRetried(policy.maxAttempts, messages, i)
    ensures failed ==> failures != [] && !IsRetried(policy.maxAttempts, messages, |failures| - 1)
    ensures !failed ==> |failures| == |messages|
                        && forall i :: 0 <= i < |messages| ==> IsRetried(policy.maxAttempts, messages, i)
  {
    hide IsBackoff, ComputeBackoff, ClassifyFailure, Replay, IsRetryRun;
    ctx := new RetryContext(policy.maxAttempts);
    failed := false;
    failures := [];
    NoFailures(policy);
    for i := 0 to |messages|
      invariant fresh(ctx) && ctx.maxAttempts == policy.maxAttempts && |failures| == i
      invariant IsRetryRun(policy, failures) && ctx.State() == Replay(policy.maxAttempts, failures)
      invariant i > 0 ==> ctx.State().ShouldRetry()
      invariant forall k :: 0 <= k < i ==> failures[k].failureClass == ClassifyFailure(messages[k])
      invariant forall k :: 0 <= k < i ==> IsRetried(policy.maxAttempts, messages, k)
    {
      var failureClass := ClassifyFailure(messages[i]);
      var next := (ctx.attempt + 1) % TWO_TO_THE_32;
      WholeSeconds(next, policy, samples[i]);
      var backoffSecs := ComputeBackoff(next, policy, samples[i]).Floor;
      OneMoreFailure(policy, failures, Failure(failureClass, backoffSecs));
      ctx.RecordFailure(failureClass, backoffSecs);
      failures := failures + [Failure(failureClass, backoffSecs)];
      var retry := ctx.ShouldRetry();
      if failureClass == Transient {
        RetryAllowed(policy, failures);
      }
      if !(failureClass == Transient && retry) {
        failed := true;
        return;
      }
    }
  }

  lemma NoFailures(policy: RetryPolicy)
    ensures IsRetryRun(policy, []) && Replay(policy.maxAttempts, []) == RetryState(0, policy.maxAttempts, 0, None)
  {
  }

  // ---------- Continuation across turns ----------

  /** A continuation state on values; the turn counter wraps as in a release build. */
  datatype TurnState = TurnState(turnCount: u32, maxTurns: u32, lastFinishReason: Option<string>)
  {
    function AfterTurn(finishReason: string): TurnState {
      this.(turnCount := (turnCount + 1) % TWO_TO_THE_32, lastFinishReason := Some(finishReason))
    }

    predicate ShouldContinue() {
      turnCount < maxTurns && lastFinishReason.Some? && AsksForMore(lastFinishReason.value)
    }

    /** What the event loop tests after every turn. */
    predicate IsCapped() {
      turnCount >= maxTurns && ShouldContinue()
    }

    /** What its comment describes: the turns are used up and the agent still wants to continue. */
    predicate IsCappedAsDocumented() {
      turnCount >= maxTurns && lastFinishReason.Some? && AsksForMore(lastFinishReason.value)
    }
  }

  predicate AsksForMore(finishReason: string) {
    finishReason == "max_tokens" || finishReason == "length" || finishReason == "tool_use"
  }

  class ContinuationState {
    var turnCount: u32
    const maxTurns: u32
    var lastFinishReason: Option<string>

    ghost function State(): TurnState
      reads this
    {
      TurnState(turnCount, maxTurns, lastFinishReason)
    }

    constructor (maxTurns: u32)
      ensures State() == TurnState(0, maxTurns, None)
    {
      this.turnCount := 0;
      this.maxTurns := maxTurns;
      this.lastFinishReason := None;
    }

    method RecordTurn(finishReason: string)
      modifies this
      ensures State() == old(State()).AfterTurn(finishReason)
    {
      turnCount := (turnCount + 1) % TWO_TO_THE_32;
      lastFinishReason := Some(finishReason);
    }

    method ShouldContinue() returns (go: bool)
      ensures go == State().ShouldContinue()
    {
      if turnCount >= maxTurns {
        return false;
      }
      match lastFinishReason {
        case None => go := false;
        case Some(reason) => go := AsksForMore(reason);
      }
    }
  }

  function TurnsTaken(maxTurns: u32, reasons: seq<string>): TurnState {
    if reasons == [] then TurnState(0, maxTurns, None)
    else TurnsTaken(maxTurns, reasons[..|reasons| - 1]).AfterTurn(reasons[|reasons| - 1])
  }

  /** The completed turns of one run, handled until the cap applies: it never does, so every turn is taken. */
  method HandleTurns(maxTurns: u32, reasons: seq<string>) returns (continuation: ContinuationState, capped: bool)
    ensures fresh(continuation) && !capped
    ensures continuation.State() == TurnsTaken(maxTurns, reasons)
  {
    continuation := new ContinuationState(maxTurns);
    capped := false;
    for i := 0 to |reasons|
      invariant fresh(continuation) && continuation.maxTurns == maxTurns
      invariant continuation.State() == TurnsTaken(maxTurns, reasons[..i])
    {
      continuation.RecordTurn(reasons[i]);
      assert reasons[..i + 1][..i] == reasons[..i];
      if continuation.turnCount >= continuation.maxTurns {
        var go := continuation.ShouldContinue();
        if go {
          capped := true;
          return;
        }
      }
    }
    assert reasons[..|reasons|] == reasons;
  }

  lemma {:induction false} TurnsAreCounted(maxTurns: u32, reasons: seq<string>)
    ensures TurnsTaken(maxTurns, reasons).turnCount == |reasons| % TWO_TO_THE_32
    ensures TurnsTaken(maxTurns, reasons).maxTurns == maxTurns
    ensures TurnsTaken(maxTurns, reasons).lastFinishReason == if reasons == [] then None else Some(reasons[|reasons| - 1])
  {
    if reasons != [] {
      TurnsAreCounted(maxTurns, reasons[..|reasons| - 1]);
    }
  }

  /** An agent is asked to go on while turns are left and its last turn ended for one of three reasons. */
  lemma GoesOnForThreeReasons(maxTurns: u32, reasons: seq<string>)
    ensures TurnsTaken(maxTurns, reasons).ShouldContinue() <==>
            && |reasons| % TWO_TO_THE_32 < maxTurns && reasons != []
            && reasons[|reasons| - 1] in ["max_tokens", "length", "tool_use"]
  {
    TurnsAreCounted(maxTurns, reasons);
  }

  /** Some turn of the run meets the cap, as coded or as documented. */
  ghost predicate MeetsCap(maxTurns: u32, reasons: seq<string>, documented: bool) {
    exists i :: 0 < i <= |reasons| && CapAt(maxTurns, reasons, documented, i)
  }

  ghost predicate CapAt(maxTurns: u32, reasons: seq<string>, documented: bool, i: nat)
    requires i <= |reasons|
  {
    var t := TurnsTaken(maxTurns, reasons[..i]);
    if documented then t.IsCappedAsDocumented() else t.IsCapped()
  }

  /**
   No sequence of finish reasons ever meets the cap as coded. The loop therefore does what its comment says exactly for
   the runs in which no turn from the `max_turns`-th on asks for more.
   */
  lemma CapIsAsDocumentedIff(maxTurns: u32, reasons: seq<string>)
    ensures !MeetsCap(maxTurns, reasons, false)
    ensures (MeetsCap(maxTurns, reasons, false) <==> MeetsCap(maxTurns, reasons, true)) <==>
            forall i :: 0 <= i < |reasons| && (i + 1) % TWO_TO_THE_32 >= maxTurns ==>
              reasons[i] != "max_tokens" && reasons[i] != "length" && reasons[i] != "tool_use"
  {
    forall i | 0 < i <= |reasons|
      ensures CapAt(maxTurns, reasons, true, i) <==> i % TWO_TO_THE_32 >= maxTurns && AsksForMore(reasons[i - 1])
    {
      TurnsAreCounted(maxTurns, reasons[..i]);
    }
    forall i | 0 <= i < |reasons| && (i + 1) % TWO_TO_THE_32 >= maxTurns && AsksForMore(reasons[i])
      ensures CapAt(maxTurns, reasons, true, i + 1)
    {
    }
  }
}
