/** src/supervisor/process.rs: the sliding-window restart limit and its backoff. */
module Restarts {

  import opened MachineInts

  /** Nanoseconds; the largest duration is u64::MAX seconds and 999999999 nanoseconds. */
  const MAX_DURATION := U64_MODULUS * 1_000_000_000 - 1

  type Duration = n: int | 0 <= n <= MAX_DURATION

  datatype RestartPolicy = RestartPolicy(
    maxRestarts: u32, restartWindow: Duration, backoffBase: Duration, backoffMax: Duration)

  datatype RestartResult = Ok(backoff: Duration) | MaxRestartsExceeded

  function Pow2(n: nat): nat { if n == 0 then 1 else 2 * Pow2(n - 1) }

  // ------------------------------------------------------------------------ backoff

  /** `2u64.saturating_pow(exp)`. */
  function SaturatingPow2(exp: nat): nat { if exp < 64 then Pow2(exp) else U64_MODULUS - 1 }

  function SaturatingMul(d: Duration, k: u32): Duration {
    if d * k <= MAX_DURATION then d * k else MAX_DURATION
  }

  /** The multiplier is a u64 narrowed to u32 by truncation. */
  function CurrentBackoff(policy: RestartPolicy, failures: u32): Duration {
    var exp := if failures == 0 then 0 else failures - 1;
    var multiplier := SaturatingPow2(exp) % U32_MODULUS;
    Min(SaturatingMul(policy.backoffBase, multiplier), policy.backoffMax)
  }

  /** What an exponential backoff capped at `backoffMax` should be. */
  function Exponential(policy: RestartPolicy, failures: u32): nat
    requires failures >= 1
  {
    Min(policy.backoffBase * Pow2(failures - 1), policy.backoffMax)
  }

  lemma {:induction false} Pow2Grows(a: nat, b: nat)
    requires a <= b
    ensures 0 < Pow2(a) <= Pow2(b)
    ensures Pow2(b) == Pow2(a) * Pow2(b - a)
    decreases b
  {
    if a < b {
      Pow2Grows(a, b - 1);
    } else {
      if a > 0 { Pow2Grows(a - 1, b - 1); }
    }
  }

  lemma Pow2At32()
    ensures Pow2(32) == U32_MODULUS && Pow2(31) < U32_MODULUS
  {
    assert Pow2(8) == 256;
    Pow2Grows(8, 16);
    assert Pow2(16) == 65536;
    Pow2Grows(16, 32);
  }

  lemma MultipleOf(k: nat)
    ensures (U32_MODULUS * k) % U32_MODULUS == 0
  {
  }

  lemma Multiplier(exp: nat)
    ensures SaturatingPow2(exp) % U32_MODULUS ==
      if exp < 32 then Pow2(exp) else if exp < 64 then 0 else 0xffff_ffff
  {
    Pow2At32();
    if exp < 32 {
      Pow2Grows(exp, 31);
    } else if exp < 64 {
      Pow2Grows(32, exp);
      MultipleOf(Pow2(exp - 32));
    }
  }

  /** The exact backoff: exponential up to 32 failures, then zero, then nearly constant. */
  lemma BackoffLaw(policy: RestartPolicy, n: u32)
    requires n >= 1
    ensures CurrentBackoff(policy, n) <= policy.backoffMax
    ensures CurrentBackoff(policy, n) ==
      if n <= 32 then Exponential(policy, n)
      else if n <= 64 then 0
      else Min(policy.backoffBase * 0xffff_ffff, policy.backoffMax)
  {
    Multiplier(n - 1);
  }

  lemma TwiceThePower(b: nat, n: nat)
    ensures b * Pow2(n + 1) == 2 * (b * Pow2(n))
  {
  }

  /** The backoff starts at the base and doubles until it is capped, up to 32 failures. */
  lemma BackoffDoubles(policy: RestartPolicy, n: u32)
    ensures CurrentBackoff(policy, 0) == CurrentBackoff(policy, 1) == Min(policy.backoffBase, policy.backoffMax)
    ensures 1 <= n < 32 ==>
      CurrentBackoff(policy, n + 1) == Min(2 * CurrentBackoff(policy, n), policy.backoffMax)
  {
    BackoffLaw(policy, 1);
    if 1 <= n < 32 {
      BackoffLaw(policy, n);
      BackoffLaw(policy, n + 1);
      TwiceThePower(policy.backoffBase, n - 1);
    }
  }

  lemma MulMonotone(b: nat, x: nat, y: nat)
    requires x <= y
    ensures b * x <= b * y
    ensures b > 0 && x < y ==> b * x < b * y
  {
  }

  lemma BackoffGrows(policy: RestartPolicy, m: u32, n: u32)
    requires 1 <= m <= n <= 32
    ensures CurrentBackoff(policy, m) <= CurrentBackoff(policy, n)
  {
    BackoffLaw(policy, m);
    BackoffLaw(policy, n);
    Pow2Grows(m - 1, n - 1);
    MulMonotone(policy.backoffBase, Pow2(m - 1), Pow2(n - 1));
  }

  /** Exactly when the backoff is the capped exponential its documentation describes. */
  lemma BackoffIsExponentialIff(policy: RestartPolicy, n: u32)
    requires n >= 1
    ensures CurrentBackoff(policy, n) == Exponential(policy, n) <==>
      || n <= 32
      || policy.backoffBase == 0
      || policy.backoffMax == 0
      || (n >= 65 && policy.backoffBase * 0xffff_ffff >= policy.backoffMax)
  {
    BackoffLaw(policy, n);
    if n > 32 {
      Pow2At32();
      Pow2Grows(32, n - 1);
      MulMonotone(policy.backoffBase, 0xffff_ffff, Pow2(n - 1));
    }
  }

  const DEFAULT_POLICY := RestartPolicy(5, 300_000_000_000, 100_000_000, 30_000_000_000)

  /** With the default policy the first failure waits 100 ms, the 32nd 30 s and the 33rd not at all. */
  lemma DefaultBackoffCollapses()
    ensures CurrentBackoff(DEFAULT_POLICY, 1) == 100_000_000
    ensures CurrentBackoff(DEFAULT_POLICY, 32) == 30_000_000_000 && CurrentBackoff(DEFAULT_POLICY, 33) == 0
  {
    BackoffLaw(DEFAULT_POLICY, 1);
    BackoffLaw(DEFAULT_POLICY, 32);
    BackoffLaw(DEFAULT_POLICY, 33);
    assert Pow2(9) == 512;
    Pow2Grows(9, 31);
    MulMonotone(DEFAULT_POLICY.backoffBase, 512, Pow2(31));
  }

  // ------------------------------------------------------------------ sliding window

  /** The entries not older than `cutoff`. */
  function Since(times: seq<int>, cutoff: int): seq<int> {
    if times == [] then []
    else
      var n := |times| - 1;
      Since(times[..n], cutoff) + if times[n] >= cutoff then [times[n]] else []
  }

  /** How many entries lie in the closed window from `a` to `b`. */
  function CountWithin(times: seq<int>, a: int, b: int): nat {
    if times == [] then 0
    else
      var n := |times| - 1;
      CountWithin(times[..n], a, b) + if a <= times[n] <= b then 1 else 0
  }

  /** Each restart, when recorded, found fewer than `limit` restarts in the window ending with it. */
  ghost predicate RateLimited(times: seq<int>, window: nat, limit: nat) {
    times == [] ||
    var n := |times| - 1;
    RateLimited(times[..n], window, limit) && |Since(times[..n], times[n] - window)| < limit
  }

  lemma SinceSnoc(times: seq<int>, t: int, cutoff: int)
    ensures Since(times + [t], cutoff) == Since(times, cutoff) + if t >= cutoff then [t] else []
  {
  }

  /** Pruning twice with a later cutoff is pruning the full history once. */
  lemma {:induction false} PruneAgain(times: seq<int>, c: int, d: int)
    requires c <= d
    ensures Since(Since(times, c), d) == Since(times, d)
    ensures |Since(times, d)| <= |Since(times, c)|
  {
    if times != [] {
      var n := |times| - 1;
      PruneAgain(times[..n], c, d);
      if times[n] >= c {
        SinceSnoc(Since(times[..n], c), times[n], d);
      } else {
        assert Since(times, c) == Since(times[..n], c);
      }
    }
  }

  /** What is kept is exactly what lies between the cutoff and the present. */
  lemma {:induction false} SinceCounts(times: seq<int>, cutoff: int, now: int)
    requires forall i :: 0 <= i < |times| ==> times[i] <= now
    ensures |Since(times, cutoff)| == CountWithin(times, cutoff, now)
  {
    if times != [] { SinceCounts(times[..|times| - 1], cutoff, now); }
  }

  lemma {:induction false} WindowWithinSince(times: seq<int>, a: int, b: int)
    ensures CountWithin(times, a, b) <= |Since(times, a)|
  {
    if times != [] { WindowWithinSince(times[..|times| - 1], a, b); }
  }

  /** No closed window of the configured length holds more than `limit` restarts, wherever it starts. */
  lemma {:induction false} AnyWindowIsLimited(times: seq<int>, window: nat, limit: nat, a: int)
    requires RateLimited(times, window, limit)
    ensures CountWithin(times, a, a + window) <= limit
  {
    if times != [] {
      var n := |times| - 1;
      var init := times[..n];
      AnyWindowIsLimited(init, window, limit, a);
      if a <= times[n] <= a + window {
        WindowWithinSince(init, a, a + window);
        PruneAgain(init, times[n] - window, a);
      }
    }
  }

  lemma PruneToNow(times: seq<int>, c: int, d: int)
    requires times != [] ==> c <= d
    ensures Since(Since(times, c), d) == Since(times, d)
  {
    if times != [] { PruneAgain(times, c, d); }
  }

  /** What is left after any prune is no more than the limit. */
  lemma PrunedWithinLimit(times: seq<int>, window: nat, limit: nat, now: int)
    requires RateLimited(times, window, limit)
    requires times != [] ==> times[|times| - 1] <= now
    ensures |Since(times, now - window)| <= limit
  {
    if times != [] {
      var n := |times| - 1;
      PruneAgain(times[..n], times[n] - window, now - window);
    }
  }

  lemma RecordKeepsLimit(times: seq<int>, window: nat, limit: nat, now: int)
    requires RateLimited(times, window, limit) && |Since(times, now - window)| < limit
    ensures RateLimited(times + [now], window, limit)
    ensures Since(times + [now], now - window) == Since(times, now - window) + [now]
  {
  }

  /** Restarts at equal distances: 0, `d`, `2 * d` and so on. */
  function Every(n: nat, d: nat): (times: seq<int>)
    ensures |times| == n
  {
    if n == 0 then [] else Every(n - 1, d) + [(n - 1) * d]
  }

  lemma {:induction false} EveryGrows(n: nat, d: nat, i: nat, j: nat)
    requires i <= j < n
    ensures Every(n, d)[i] <= Every(n, d)[j] <= (n - 1) * d
    decreases n
  {
    if n > 1 {
      MulMonotone(d, n - 2, n - 1);
      if j < n - 1 {
        EveryGrows(n - 1, d, i, j);
      } else if i < j {
        EveryGrows(n - 1, d, i, i);
      }
    }
  }

  /** At most the last `k` of them are not older than a cutoff after the one before these. */
  lemma {:induction false} LastOnes(n: nat, d: nat, k: nat, cutoff: int)
    requires (n - 1 - k) * d < cutoff
    ensures |Since(Every(n, d), cutoff)| <= k
    decreases n
  {
    if n > 0 {
      if (n - 1) * d < cutoff {
        LastOnes(n - 1, d, if k > 0 then k - 1 else 0, cutoff);
      } else {
        LastOnes(n - 1, d, k - 1, cutoff);
      }
    }
  }

  lemma LessThanLimit(n: nat, d: nat, window: nat, limit: nat)
    requires window < limit * d
    ensures |Since(Every(n, d), n * d - window)| < limit
  {
    assert (n - limit) * d == n * d - limit * d;
    LastOnes(n, d, limit - 1, n * d - window);
  }

  /** A window shorter than `limit` distances never refuses equally spaced restarts, however many. */
  lemma {:induction false} SpacedIsLimited(n: nat, d: nat, window: nat, limit: nat)
    requires window < limit * d
    ensures RateLimited(Every(n, d), window, limit)
    decreases n
  {
    if n > 0 {
      SpacedIsLimited(n - 1, d, window, limit);
      LessThanLimit(n - 1, d, window, limit);
      assert Every(n, d)[..n - 1] == Every(n - 1, d);
    }
  }

  ghost predicate Ordered(times: seq<int>) {
    forall i, j :: 0 <= i <= j < |times| ==> times[i] <= times[j]
  }

  /** The limit alone never keeps a tracker from any failure count, unless it allows no restart at all. */
  lemma FailuresAreReachableIff(policy: RestartPolicy, n: nat)
    requires n >= 1
    ensures (exists times ::
      |times| == n && Ordered(times) && RateLimited(times, policy.restartWindow, policy.maxRestarts)) <==>
      policy.maxRestarts >= 1
  {
    if policy.maxRestarts >= 1 {
      var d := policy.restartWindow + 1;
      var times := Every(n, d);
      MulMonotone(d, 1, policy.maxRestarts);
      SpacedIsLimited(n, d, policy.restartWindow, policy.maxRestarts);
      forall i, j | 0 <= i <= j < n ensures times[i] <= times[j] { EveryGrows(n, d, i, j); }
    }
  }

  /** The default policy allows five restarts in any five minutes. */
  lemma DefaultWindow(times: seq<int>, a: int)
    requires RateLimited(times, DEFAULT_POLICY.restartWindow, DEFAULT_POLICY.maxRestarts)
    ensures CountWithin(times, a, a + 300_000_000_000) <= 5
  {
    AnyWindowIsLimited(times, DEFAULT_POLICY.restartWindow, DEFAULT_POLICY.maxRestarts, a);
  }

  /** One restart every 75 seconds is never refused by the default policy and ends without any backoff. */
  lemma DefaultReachesCollapse()
    ensures var times := Every(33, 75_000_000_000);
      && Ordered(times)
      && RateLimited(times, DEFAULT_POLICY.restartWindow, DEFAULT_POLICY.maxRestarts)
      && CurrentBackoff(DEFAULT_POLICY, |times|) == 0
  {
    DefaultBackoffCollapses();
    SpacedIsLimited(33, 75_000_000_000, DEFAULT_POLICY.restartWindow, DEFAULT_POLICY.maxRestarts);
    forall i, j | 0 <= i <= j < 33
      ensures Every(33, 75_000_000_000)[i] <= Every(33, 75_000_000_000)[j]
    {
      EveryGrows(33, 75_000_000_000, i, j);
    }
  }

  lemma CountUp(n: nat)
    ensures (n % U32_MODULUS + 1) % U32_MODULUS == (n + 1) % U32_MODULUS
  {
  }

  class RestartTracker {
    const policy: RestartPolicy
    var restartTimes: seq<int>
    var consecutiveFailures: u32
    ghost var history: seq<int>  // all successful restarts since the last reset, never pruned
    ghost var clock: int         // when the tracker was last asked

    /** The pruned list is exactly the in-window part of the full history. */
    ghost predicate Valid()
      reads this
    {
      && restartTimes == Since(history, clock - policy.restartWindow)
      && RateLimited(history, policy.restartWindow, policy.maxRestarts)
      && (history != [] ==> history[|history| - 1] <= clock)
      && consecutiveFailures == |history| % U32_MODULUS
    }

    constructor (policy: RestartPolicy)
      ensures Valid() && history == [] && this.policy == policy
    {
      this.policy := policy;
      restartTimes, consecutiveFailures := [], 0;
      history, clock := [], 0;
    }

    method RecordRestart(now: int) returns (r: RestartResult)
      requires Valid() && (history != [] ==> clock <= now)
      modifies this
      ensures Valid() && clock == now
      ensures r.MaxRestartsExceeded? <==>
        |Since(old(history), now - policy.restartWindow)| >= policy.maxRestarts
      ensures r.MaxRestartsExceeded? ==>
        history == old(history) && consecutiveFailures == old(consecutiveFailures)
      ensures r.Ok? ==>
        && history == old(history) + [now]
        && consecutiveFailures == (old(consecutiveFailures) + 1) % U32_MODULUS
        && r.backoff == CurrentBackoff(policy, consecutiveFailures)
    {
      hide RateLimited, Since, CurrentBackoff;
      var cutoff := now - policy.restartWindow;
      PruneToNow(history, clock - policy.restartWindow, cutoff);
      restartTimes := Since(restartTimes, cutoff);
      clock := now;
      PrunedWithinLimit(history, policy.restartWindow, policy.maxRestarts, now);
      if |restartTimes| % U32_MODULUS >= policy.maxRestarts {
        return MaxRestartsExceeded;
      }
      RecordKeepsLimit(history, policy.restartWindow, policy.maxRestarts, now);
      CountUp(|history|);
      restartTimes := restartTimes + [now];
      history := history + [now];
      consecutiveFailures := (consecutiveFailures + 1) % U32_MODULUS;
      r := Ok(CurrentBackoff(policy, consecutiveFailures));
    }

    method Reset()
      requires Valid()
      modifies this
      ensures Valid() && history == [] && consecutiveFailures == 0
    {
      restartTimes, consecutiveFailures, history := [], 0, [];
    }
  }
}
