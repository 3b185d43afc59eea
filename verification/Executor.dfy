/** internal/executor/executor.go: backoff and the retry loop, with the summary of
    internal/logging/logger.go that reads its error categories. */
module Executor {

  /** internal/errors/classify.go; NoCategory is the empty string of a log without one. */
  datatype Category =
    | NoCategory
    | SSHConnectionFailed | SSHAuthFailed | HostUnreachable | DNSResolutionFailed
    | ConnectionTimeout | CommandTimeout | SudoAuthFailed | SudoPermissionDenied
    | RemoteCommandFailed | ShellNotFound | BinaryNotFound | NonZeroExit | UnknownError

  datatype CommandResult = CommandResult(success: bool, rawError: string, exitCode: int)

  datatype NodeLog = NodeLog(node: string, result: CommandResult, category: Category, retries: int)

  // ---------------------------------------------------------------------------
  // Backoff. Durations are nanoseconds.

  const CAP := 60_000_000_000
  const DEFAULT_BASE := 2_000_000_000
  const MAX_EXACT_FLOAT := 0x20_0000_0000_0000
  const DURATION_LIMIT := 0x8000_0000_0000_0000

  function Pow2(k: nat): (p: nat)
    ensures p >= 1
  {
    if k == 0 then 1 else 2 * Pow2(k - 1)
  }

  /** math.Pow(2, k) */
  function RealPow2(k: nat): real
  {
    if k == 0 then 1.0 else 2.0 * RealPow2(k - 1)
  }

  lemma {:induction false} RealPow2IsExact(k: nat)
    ensures RealPow2(k) == Pow2(k) as real
  {
    if k > 0 {
      RealPow2IsExact(k - 1);
    }
  }

  /** Conversion of a float to an integer type truncates toward zero. */
  function Truncate(x: real): int
  {
    if x >= 0.0 then x.Floor else -((-x).Floor)
  }

  function Base(base: int): int
  {
    if base == 0 then DEFAULT_BASE else base
  }

  /** The product fits a Duration; beyond it Go leaves the conversion undefined. */
  predicate InRange(attempt: nat, base: int)
  {
    && -MAX_EXACT_FLOAT <= Base(base) <= MAX_EXACT_FLOAT && attempt >= 1
    && -DURATION_LIMIT <= Base(base) * Pow2(attempt - 1) < DURATION_LIMIT
  }

  function Min(a: int, b: int): int
  {
    if a <= b then a else b
  }

  /** The documented exponential delay: doubled per attempt, capped at 60s. */
  function Delay(attempt: nat, base: int): int
    requires attempt >= 1
  {
    Min(Base(base) * Pow2(attempt - 1), CAP)
  }

  /** computeBackoff: the truncated real product is the exact doubling; the fixed mode
      has no cap. `wild` is what Go's conversion gives for a product out of range. */
  function ComputeBackoff(attempt: nat, base: int, fixed: bool, wild: int): (d: int)
    requires attempt >= 1
    ensures fixed ==> d == Base(base)
    ensures !fixed ==> d == if InRange(attempt, base) then Delay(attempt, base) else Min(wild, CAP)
  {
    var b := if base == 0 then DEFAULT_BASE else base;
    if fixed then b
    else
      var d := if InRange(attempt, base) then Scaled(b, attempt - 1) else wild;
      if d > CAP then CAP else d
  }

  /** float64(b) * math.Pow(2, k) */
  function RealScaled(b: int, k: nat): (x: real)
    ensures x == (b * Pow2(k)) as real
  {
    RealPow2IsExact(k);
    RealTimes(b, Pow2(k));
    (b as real) * RealPow2(k)
  }

  lemma RealTimes(b: int, p: int)
    ensures (b as real) * (p as real) == (b * p) as real
  {
  }

  /** time.Duration of it */
  function Scaled(b: int, k: nat): (d: int)
    ensures d == b * Pow2(k)
  {
    Truncate(RealScaled(b, k))
  }

  /** The delays in seconds before the first retries when nothing is configured. */
  lemma DefaultDelays()
    ensures Delay(1, 0) == 2_000_000_000 && Delay(2, 0) == 4_000_000_000 && Delay(3, 0) == 8_000_000_000
    ensures Delay(4, 0) == 16_000_000_000 && Delay(5, 0) == 32_000_000_000 && Delay(6, 0) == 60_000_000_000
  {
    assert Pow2(1) == 2 * Pow2(0) && Pow2(2) == 2 * Pow2(1) && Pow2(3) == 2 * Pow2(2);
    assert Pow2(4) == 2 * Pow2(3) && Pow2(5) == 2 * Pow2(4);
  }

  lemma {:induction false} Pow2Monotone(j: nat, k: nat)
    requires j <= k
    ensures Pow2(j) <= Pow2(k)
    decreases k - j
  {
    if j < k {
      Pow2Monotone(j, k - 1);
    }
  }

  lemma TimesMonotone(b: int, p: int, q: int)
    requires b >= 0 && p <= q
    ensures b * p <= b * q
  {
  }

  /** Later attempts never wait less. */
  lemma BackoffMonotone(a: nat, b: nat, base: int)
    requires 1 <= a <= b && base >= 0
    ensures Delay(a, base) <= Delay(b, base)
  {
    Pow2Monotone(a - 1, b - 1);
    hide Pow2;
    TimesMonotone(Base(base), Pow2(a - 1), Pow2(b - 1));
  }

  /** Number of attempts whose doubled delay is still within the cap. */
  function CapIndex(base: int): (c: nat)
    requires base > 0
    decreases CAP - base
  {
    if base > CAP then 0 else 1 + CapIndex(2 * base)
  }

  lemma {:induction false} CapIndexIsThreshold(base: int, a: nat)
    requires base > 0
    ensures a < CapIndex(base) <==> base * Pow2(a) <= CAP
    decreases a
  {
    if a == 0 {
    } else if base <= CAP {
      CapIndexIsThreshold(2 * base, a - 1);
      assert base * Pow2(a) == 2 * base * Pow2(a - 1);
    } else {
      assert base * Pow2(a) >= base;
    }
  }

  /** The delays before retries 1 to k together, in exponential mode. */
  function TotalDelay(k: nat, base: int): int
  {
    if k == 0 then 0 else TotalDelay(k - 1, base) + Delay(k, base)
  }

  /** Closed form: doubling up to the cap index, the cap from there on. */
  lemma {:induction false} TotalDelayClosedForm(k: nat, base: int)
    requires base >= 0
    ensures var b, c := Base(base), CapIndex(Base(base));
            TotalDelay(k, base) == if k <= c then b * (Pow2(k) - 1) else b * (Pow2(c) - 1) + CAP * (k - c)
  {
    var b, c := Base(base), CapIndex(Base(base));
    if k > 0 {
      TotalDelayClosedForm(k - 1, base);
      CapIndexIsThreshold(b, k - 1);
      Doubling(b, Pow2(k - 1));
      assert Pow2(k) == 2 * Pow2(k - 1);
      hide Pow2, CapIndex, Base;
      assert Delay(k, base) == if k <= c then b * Pow2(k - 1) else CAP;
    }
  }

  lemma Doubling(base: int, p: int)
    ensures base * (2 * p - 1) == base * (p - 1) + base * p
  {
  }

  // ---------------------------------------------------------------------------
  // Retry policy and summary buckets

  predicate IsRetryable(cat: Category)
  {
    cat in {ConnectionTimeout, CommandTimeout, SSHConnectionFailed, HostUnreachable, DNSResolutionFailed}
  }

  datatype Bucket = InSucceeded | InUnreachable | InTimedOut | InFailed

  function BucketOf(l: NodeLog): Bucket
  {
    if l.result.success then InSucceeded
    else if l.category in {HostUnreachable, SSHConnectionFailed, DNSResolutionFailed} then InUnreachable
    else if l.category in {ConnectionTimeout, CommandTimeout} then InTimedOut
    else InFailed
  }

  datatype Summary = Summary(total: nat, succeeded: nat, failed: nat, unreachable: nat, timedOut: nat, retried: nat)

  function BucketCount(logs: seq<NodeLog>, b: Bucket): nat
  {
    if logs == [] then 0 else BucketCount(logs[..|logs| - 1], b) + if BucketOf(logs[|logs| - 1]) == b then 1 else 0
  }

  function RetriedCount(logs: seq<NodeLog>): nat
  {
    if logs == [] then 0 else RetriedCount(logs[..|logs| - 1]) + if logs[|logs| - 1].retries > 0 then 1 else 0
  }

  /** A bucket's count is the number of places in the list that hold one of its logs. */
  lemma {:induction false} BucketCountIsCard(logs: seq<NodeLog>, b: Bucket)
    ensures BucketCount(logs, b) == |set i | 0 <= i < |logs| && BucketOf(logs[i]) == b|
  {
    hide BucketOf, BucketCount;
    var places := set i | 0 <= i < |logs| && BucketOf(logs[i]) == b;
    if logs == [] {
      assert places == {};
      assert BucketCount(logs, b) == 0 by { NoBucket(b); }
    } else {
      var init, last := logs[..|logs| - 1], logs[|logs| - 1];
      assert logs == init + [last];
      BucketCountIsCard(init, b);
      BucketAfter(init, last, b);
    }
  }

  lemma NoBucket(b: Bucket)
    ensures BucketCount([], b) == 0
  {
  }

  /** One more log adds its own place to its own bucket. */
  lemma BucketAfter(init: seq<NodeLog>, last: NodeLog, b: Bucket)
    ensures BucketCount(init + [last], b) == BucketCount(init, b) + if BucketOf(last) == b then 1 else 0
    ensures |set i | 0 <= i < |init + [last]| && BucketOf((init + [last])[i]) == b| ==
            |set i | 0 <= i < |init| && BucketOf(init[i]) == b| + if BucketOf(last) == b then 1 else 0
  {
    var logs, n := init + [last], |init|;
    assert logs[..n] == init && logs[n] == last;
    hide BucketOf;
    var before, after := set i | 0 <= i < n && BucketOf(init[i]) == b, set i | 0 <= i < n + 1 && BucketOf(logs[i]) == b;
    forall i ensures i in after <==> i in before || (i == n && BucketOf(last) == b) {
      if 0 <= i < n { assert logs[i] == init[i]; }
    }
    assert after == before + if BucketOf(last) == b then {n} else {};
  }

  lemma {:induction false} RetriedCountIsCard(logs: seq<NodeLog>)
    ensures RetriedCount(logs) == |set i | 0 <= i < |logs| && logs[i].retries > 0|
  {
    var places := set i | 0 <= i < |logs| && logs[i].retries > 0;
    if logs == [] {
      assert places == {};
    } else {
      var init, n := logs[..|logs| - 1], |logs| - 1;
      RetriedCountIsCard(init);
      var before := set i | 0 <= i < |init| && init[i].retries > 0;
      assert places == before + if logs[n].retries > 0 then {n} else {};
    }
  }

  /** BuildSummary: each log lands in one bucket, so the four add up to the total. */
  method BuildSummary(logs: seq<NodeLog>) returns (s: Summary)
    ensures s.succeeded == |set i | 0 <= i < |logs| && logs[i].result.success|
    ensures s.unreachable ==
            |set i | 0 <= i < |logs| && !logs[i].result.success
                     && logs[i].category in {HostUnreachable, SSHConnectionFailed, DNSResolutionFailed}|
    ensures s.timedOut == |set i | 0 <= i < |logs| && !logs[i].result.success
                                   && logs[i].category in {ConnectionTimeout, CommandTimeout}|
    ensures s.failed == |set i | 0 <= i < |logs| && !logs[i].result.success
                                 && logs[i].category !in {HostUnreachable, SSHConnectionFailed, DNSResolutionFailed,
                                                          ConnectionTimeout, CommandTimeout}|
    ensures s.retried == |set i | 0 <= i < |logs| && logs[i].retries > 0|
    ensures s.total == |logs| == s.succeeded + s.failed + s.unreachable + s.timedOut
    ensures s.succeeded == BucketCount(logs, InSucceeded) && s.failed == BucketCount(logs, InFailed)
    ensures s.unreachable == BucketCount(logs, InUnreachable) && s.timedOut == BucketCount(logs, InTimedOut)
    ensures s.retried == RetriedCount(logs)
  {
    s := Summary(|logs|, 0, 0, 0, 0, 0);
    for i := 0 to |logs|
      invariant s.total == |logs| && s.succeeded + s.failed + s.unreachable + s.timedOut == i
      invariant s.succeeded == BucketCount(logs[..i], InSucceeded) && s.failed == BucketCount(logs[..i], InFailed)
      invariant s.unreachable == BucketCount(logs[..i], InUnreachable)
                && s.timedOut == BucketCount(logs[..i], InTimedOut)
      invariant s.retried == RetriedCount(logs[..i])
    {
      var l := logs[i];
      assert logs[..i + 1][..i] == logs[..i];
      if l.result.success {
        s := s.(succeeded := s.succeeded + 1);
      } else if l.category == HostUnreachable || l.category == SSHConnectionFailed
                || l.category == DNSResolutionFailed {
        s := s.(unreachable := s.unreachable + 1);
      } else if l.category == ConnectionTimeout || l.category == CommandTimeout {
        s := s.(timedOut := s.timedOut + 1);
      } else {
        s := s.(failed := s.failed + 1);
      }
      if l.retries > 0 {
        s := s.(retried := s.retried + 1);
      }
    }
    assert logs[..|logs|] == logs;
    BucketsByLog(logs);
    RetriedCountIsCard(logs);
  }

  /** Which logs each bucket counts. */
  lemma BucketsByLog(logs: seq<NodeLog>)
    ensures BucketCount(logs, InSucceeded) == |set i | 0 <= i < |logs| && logs[i].result.success|
    ensures BucketCount(logs, InUnreachable) ==
            |set i | 0 <= i < |logs| && !logs[i].result.success
                     && logs[i].category in {HostUnreachable, SSHConnectionFailed, DNSResolutionFailed}|
    ensures BucketCount(logs, InTimedOut) ==
            |set i | 0 <= i < |logs| && !logs[i].result.success
                     && logs[i].category in {ConnectionTimeout, CommandTimeout}|
    ensures BucketCount(logs, InFailed) ==
            |set i | 0 <= i < |logs| && !logs[i].result.success
                     && logs[i].category !in {HostUnreachable, SSHConnectionFailed, DNSResolutionFailed,
                                              ConnectionTimeout, CommandTimeout}|
  {
    forall b ensures BucketCount(logs, b) == |set i | 0 <= i < |logs| && BucketOf(logs[i]) == b| {
      BucketCountIsCard(logs, b);
    }
    hide BucketCount;
    assert (set i | 0 <= i < |logs| && BucketOf(logs[i]) == InSucceeded) ==
           set i | 0 <= i < |logs| && logs[i].result.success;
    assert (set i | 0 <= i < |logs| && BucketOf(logs[i]) == InUnreachable) ==
           set i | 0 <= i < |logs| && !logs[i].result.success
                   && logs[i].category in {HostUnreachable, SSHConnectionFailed, DNSResolutionFailed};
    assert (set i | 0 <= i < |logs| && BucketOf(logs[i]) == InTimedOut) ==
           set i | 0 <= i < |logs| && !logs[i].result.success
                   && logs[i].category in {ConnectionTimeout, CommandTimeout};
    assert (set i | 0 <= i < |logs| && BucketOf(logs[i]) == InFailed) ==
           set i | 0 <= i < |logs| && !logs[i].result.success
                   && logs[i].category !in {HostUnreachable, SSHConnectionFailed, DNSResolutionFailed,
                                            ConnectionTimeout, CommandTimeout};
  }

  // ---------------------------------------------------------------------------
  // The retry loop

  /** What lies outside the loop: the result of the a-th RunCommand, whether the select
      before the a-th attempt sees the context done, the error classifier, and the
      duration a backoff out of range converts to. */
  datatype Remote = Remote(command: nat -> CommandResult, cancelled: nat -> bool,
                           classify: (string, int) -> Category, wild: nat -> int)

  /** The delay before attempt `a`. */
  function DelayBefore(env: Remote, a: nat, base: int, fixed: bool): int
    requires a >= 1
  {
    ComputeBackoff(a, base, fixed, env.wild(a))
  }

  function CategoryOf(env: Remote, r: CommandResult): Category
  {
    env.classify(r.rawError, r.exitCode)
  }

  /** The loop goes on after attempt `a`. */
  predicate TriesAgain(env: Remote, maxRetries: int, a: nat)
  {
    !env.command(a).success && a != maxRetries && IsRetryable(CategoryOf(env, env.command(a)))
  }

  function Sum(ds: seq<int>): int
  {
    if ds == [] then 0 else Sum(ds[..|ds| - 1]) + ds[|ds| - 1]
  }

  /** executeWithRetry. `calls` are the RunCommand results it obtained, `slept` the delays
      it waited out, `aborted` whether the context ended it during a backoff. */
  method ExecuteWithRetry(env: Remote, node: string, maxRetries: int, base: int, fixed: bool)
    returns (log: NodeLog, calls: seq<CommandResult>, slept: seq<int>, aborted: bool)
    // A negative limit makes the loop body unreachable: an empty log and no call.
    ensures maxRetries < 0 ==> calls == [] && !aborted && log == NodeLog("", CommandResult(false, "", 0), NoCategory, 0)
    // Calls made: one more than the retries, or as many when cancelled in a backoff.
    ensures maxRetries >= 0 ==> 0 <= log.retries <= maxRetries
    ensures maxRetries >= 0 ==> |calls| == log.retries + if aborted then 0 else 1
    ensures forall a :: 0 <= a < |calls| ==> calls[a] == env.command(a)
    // All but the last failed with a retryable category; it stopped where the policy says.
    ensures forall a :: 0 <= a < log.retries ==> TriesAgain(env, maxRetries, a)
    ensures forall a :: 0 <= a < log.retries ==>
              && !env.command(a).success
              && env.classify(env.command(a).rawError, env.command(a).exitCode) in
                   {ConnectionTimeout, CommandTimeout, SSHConnectionFailed, HostUnreachable, DNSResolutionFailed}
    ensures forall a :: 1 <= a < |calls| ==> !env.cancelled(a)
    ensures maxRetries >= 0 && !aborted ==>
              && !TriesAgain(env, maxRetries, log.retries)
              && log.result == env.command(log.retries) && log.node == node
              && log.category == if log.result.success then NoCategory
                                 else env.classify(log.result.rawError, log.result.exitCode)
    ensures aborted ==>
              && log.retries >= 1 && env.cancelled(log.retries)
              && log == NodeLog(node, CommandResult(false, "cancelled during retry backoff", -1),
                             CommandTimeout, log.retries)
    // What it waited.
    ensures maxRetries >= 0 ==> |slept| == if |calls| == 0 then 0 else |calls| - 1
    ensures forall a :: 0 <= a < |slept| ==>
              slept[a] == DelayBefore(env, a + 1, base, fixed) && (!fixed ==> slept[a] <= CAP)
    ensures fixed ==> Sum(slept) == |slept| * Base(base)
    ensures !fixed && (|slept| >= 1 ==> InRange(|slept|, base)) ==> Sum(slept) == TotalDelay(|slept|, base)
    // How the summary will count it.
    ensures maxRetries >= 0 && !aborted && !log.result.success && log.retries < maxRetries ==> BucketOf(log) == InFailed
    ensures aborted ==> BucketOf(log) == InTimedOut
  {
    calls, slept, aborted := [], [], false;
    var retries, attempt, stopped := 0, 0, false;
    log := NodeLog("", CommandResult(false, "", 0), NoCategory, 0);
    while attempt <= maxRetries
      invariant 0 <= attempt && (maxRetries >= 0 ==> attempt <= maxRetries) && (maxRetries < 0 ==> attempt == 0)
      invariant !aborted && !stopped && |calls| == attempt
      invariant retries == (if attempt == 0 then 0 else attempt - 1) && |slept| == retries
      invariant forall a :: 0 <= a < |calls| ==> calls[a] == env.command(a) && TriesAgain(env, maxRetries, a)
      invariant forall a :: 1 <= a < |calls| ==> !env.cancelled(a)
      invariant forall a :: 0 <= a < |slept| ==> slept[a] == DelayBefore(env, a + 1, base, fixed)
      decreases maxRetries - attempt
    {
      if attempt > 0 {
        retries := retries + 1;
        if env.cancelled(attempt) {
          aborted, stopped := true, true;
          log := NodeLog(node, CommandResult(false, "cancelled during retry backoff", -1), CommandTimeout, retries);
          break;
        }
        var delay := ComputeBackoff(attempt, base, fixed, env.wild(attempt));
        slept := slept + [delay];
      }
      var result := env.command(attempt);
      calls := calls + [result];
      log := NodeLog(node, result, NoCategory, retries);
      if result.success {
        stopped := true;
        break;
      }
      log := log.(category := env.classify(result.rawError, result.exitCode));
      if attempt == maxRetries || !IsRetryable(log.category) {
        stopped := true;
        break;
      }
      attempt := attempt + 1;
    }
    TotalSlept(env, slept, base, fixed);
    if !stopped {
      log := NodeLog("", CommandResult(false, "", 0), NoCategory, 0);
    }
  }

  /** The delays together: every one the fixed delay, or the doubling with its cap as long as
      the last one is in range. */
  lemma {:induction false} TotalSlept(env: Remote, slept: seq<int>, base: int, fixed: bool)
    requires forall a :: 0 <= a < |slept| ==> slept[a] == DelayBefore(env, a + 1, base, fixed)
    ensures fixed ==> Sum(slept) == |slept| * Base(base)
    ensures !fixed && (|slept| >= 1 ==> InRange(|slept|, base)) ==> Sum(slept) == TotalDelay(|slept|, base)
  {
    if slept != [] {
      TotalSlept(env, slept[..|slept| - 1], base, fixed);
      if |slept| >= 2 && InRange(|slept|, base) { EarlierInRange(|slept|, base); }
    }
  }

  lemma EarlierInRange(k: nat, base: int)
    requires k >= 2 && InRange(k, base)
    ensures InRange(k - 1, base)
  {
    assert Base(base) * Pow2(k - 1) == 2 * (Base(base) * Pow2(k - 2));
  }

  /** The policy and the summary agree: a failure is retryable exactly when it would be
      counted as unreachable or timed out. */
  lemma RetryableMeansUnreachableOrTimedOut(l: NodeLog)
    requires !l.result.success
    ensures IsRetryable(l.category) <==> BucketOf(l) in {InUnreachable, InTimedOut}
  {
  }
}
