/** Retry with capped exponential backoff and jitter. Doubles are reals, or a value that is not finite. */
module Retry {
  import opened Basics
  import H = HttpRange

  datatype Double = Finite(value: real) | NotFinite

  datatype Policy = Policy(
    initialDelay: int, maxDelay: int, multiplier: Double, jitter: Double, maxAttempts: nat,
    onNetworkError: bool, onRateLimit: bool, onServerError: bool)

  type Outcome = Result<H.Response, ErrorCode>

  predicate ShouldRetry(outcome: Outcome, p: Policy) {
    match outcome
    case Ok(response) =>
      || (p.onRateLimit && response.status == 429)
      || (p.onServerError && 500 <= response.status < 600)
    case Err(code) =>
      || (p.onNetworkError && (code == NetworkError || code == ErrorCode.Timeout))
      || (p.onRateLimit && code == RateLimited)
      || (p.onServerError && code == ServerError)
  }

  /** The outcomes each flag of the policy asks to repeat. */
  ghost predicate Repeats(outcome: Outcome, p: Policy) {
    match outcome
    case Ok(response) =>
      (response.status == 429 && p.onRateLimit) || (500 <= response.status <= 599 && p.onServerError)
    case Err(code) =>
      || (code in {NetworkError, ErrorCode.Timeout} && p.onNetworkError)
      || (code in {RateLimited} && p.onRateLimit)
      || (code in {ServerError} && p.onServerError)
  }

  // ----- Backoff

  function Maximum(p: Policy): (m: int)
    ensures m >= 0
  {
    Max(p.maxDelay, 0)
  }

  function ClampedInitial(p: Policy): int {
    Max(0, Min(p.initialDelay, Maximum(p)))
  }

  function Multiplier(p: Policy): real {
    match p.multiplier
    case Finite(m) => RealMax(m, 0.0)
    case NotFinite => 1.0
  }

  function Spread(p: Policy): real {
    match p.jitter
    case Finite(j) => RealMax(0.0, RealMin(j, 1.0))
    case NotFinite => 0.0
  }

  function Power(m: real, n: nat): real {
    if n == 0 then 1.0 else m * Power(m, n - 1)
  }

  function Capped(initial: real, m: real, cap: real, n: nat): real {
    RealMin(cap, initial * Power(m, n))
  }

  /** The backoff without jitter, in closed form: exponential in the attempt, capped once. */
  function Backoff(p: Policy, attempt: nat): real {
    Capped(ClampedInitial(p) as real, Multiplier(p), Maximum(p) as real, if attempt <= 1 then 0 else attempt - 1)
  }

  /** The delay: jitter scales the backoff, the cap applies again, and the result is whole milliseconds. */
  function Delay(p: Policy, attempt: nat, draw: real): int {
    var jittered := if Spread(p) > 0.0 then Backoff(p, attempt) * draw else Backoff(p, attempt);
    if jittered >= Maximum(p) as real then Maximum(p) else jittered.Floor
  }

  lemma InitialBackoff(p: Policy)
    ensures Backoff(p, 1) == Backoff(p, 0) == ClampedInitial(p) as real
  {
  }

  lemma ProductIsNonnegative(a: real, b: real)
    requires a >= 0.0 && b >= 0.0
    ensures a * b >= 0.0
  {
  }

  lemma ScaleUp(x: real, m: real)
    requires x >= 0.0 && m >= 1.0
    ensures x * m >= x
  {
    assert x * m - x == x * (m - 1.0);
    ProductIsNonnegative(x, m - 1.0);
  }

  /** Scaling up keeps a capped value at the cap; below the cap nothing is lost by capping later. */
  lemma CapCommutes(x: real, m: real, cap: real)
    requires cap >= 0.0 && m >= 0.0 && (x <= cap || m >= 1.0)
    ensures RealMin(RealMin(cap, x) * m, cap) == RealMin(cap, x * m)
  {
    if x > cap {
      ScaleUp(cap, m);
      ScaleUp(x, m);
    }
  }

  lemma ScaleDown(x: real, m: real)
    requires x >= 0.0 && m <= 1.0
    ensures x * m <= x
  {
    assert x - x * m == x * (1.0 - m);
    ProductIsNonnegative(x, 1.0 - m);
  }

  lemma {:induction false} PowerIsNonnegative(m: real, n: nat)
    requires m >= 0.0
    ensures Power(m, n) >= 0.0
  {
    if n == 0 {
    } else {
      PowerIsNonnegative(m, n - 1);
    }
  }

  lemma {:induction false} PowerShrinks(m: real, n: nat)
    requires 0.0 <= m < 1.0
    ensures 0.0 <= Power(m, n) <= 1.0
  {
    PowerIsNonnegative(m, n);
    if n == 0 {
    } else {
      PowerShrinks(m, n - 1);
      ScaleDown(m, Power(m, n - 1));
    }
  }

  lemma Regroup(d: real, m: real, power: real)
    ensures d * (m * power) == (d * power) * m
  {
  }

  lemma PowerStep(d: real, m: real, n: nat)
    ensures d * Power(m, n + 1) == (d * Power(m, n)) * m
  {
    Regroup(d, m, Power(m, n));
  }

  lemma ShrinkingStaysBelow(d: real, m: real, cap: real, n: nat)
    requires 0.0 <= d <= cap && 0.0 <= m < 1.0
    ensures d * Power(m, n) <= cap
  {
    PowerShrinks(m, n);
    ScaleDown(d, Power(m, n));
  }

  /** One turn of the multiply-and-cap loop advances the closed form by one power. */
  lemma CappedStep(d: real, m: real, cap: real, n: nat)
    requires 0.0 <= d <= cap && m >= 0.0
    ensures RealMin(Capped(d, m, cap, n) * m, cap) == Capped(d, m, cap, n + 1)
  {
    hide Power;
    if m < 1.0 {
      ShrinkingStaysBelow(d, m, cap, n);
    }
    PowerStep(d, m, n);
    var scaled := d * Power(m, n);
    assert Capped(d, m, cap, n) == RealMin(cap, scaled);
    assert Capped(d, m, cap, n + 1) == RealMin(cap, scaled * m);
    hide Capped;
    CapCommutes(scaled, m, cap);
  }

  lemma BackoffStep(p: Policy, i: nat)
    requires i >= 1
    ensures RealMin(Backoff(p, i) * Multiplier(p), Maximum(p) as real) == Backoff(p, i + 1)
  {
    hide Capped;
    CappedStep(ClampedInitial(p) as real, Multiplier(p), Maximum(p) as real, i - 1);
  }

  lemma FieldsInPlainTerms(p: Policy)
    ensures Maximum(p) == if p.maxDelay < 0 then 0 else p.maxDelay
    ensures ClampedInitial(p)
            == if p.initialDelay < 0 then 0 else if p.initialDelay > Maximum(p) then Maximum(p) else p.initialDelay
    ensures Multiplier(p)
            == if p.multiplier.NotFinite? then 1.0 else if p.multiplier.value < 0.0 then 0.0 else p.multiplier.value
    ensures p.jitter.NotFinite? ==> Spread(p) == 0.0
    ensures p.jitter.Finite? ==> 0.0 <= Spread(p) <= 1.0
    ensures p.jitter.Finite? && Spread(p) > p.jitter.value ==> Spread(p) == 0.0
    ensures p.jitter.Finite? && Spread(p) < p.jitter.value ==> Spread(p) == 1.0
  {
  }

  lemma DelayIsTruncated(p: Policy, attempt: nat, draw: real)
    ensures Delay(p, attempt, draw)
            == RealMin(Maximum(p) as real,
                       if Spread(p) > 0.0 then Backoff(p, attempt) * draw else Backoff(p, attempt)).Floor
  {
    hide Backoff;
    hide Spread;
    assert (Maximum(p) as real).Floor == Maximum(p);
  }

  /**
   The delay in the policy's own fields. A negative maximum counts as 0; the initial delay is moved into the range
   from 0 to the maximum; a negative multiplier counts as 0 and one that is not finite as 1; the draw counts only
   with a positive jitter.
   */
  lemma DelayInPlainTerms(p: Policy, attempt: nat, draw: real)
    ensures var most := if p.maxDelay < 0 then 0 else p.maxDelay;
            var initial := if p.initialDelay < 0 then 0 else if p.initialDelay > most then most else p.initialDelay;
            var m := if p.multiplier.NotFinite? then 1.0 else RealMax(p.multiplier.value, 0.0);
            var jittered := p.jitter.Finite? && p.jitter.value > 0.0;
            var capped := Capped(initial as real, m, most as real, if attempt == 0 then 0 else attempt - 1);
            Delay(p, attempt, draw) == RealMin(most as real, if jittered then capped * draw else capped).Floor
  {
    hide Maximum;
    hide ClampedInitial;
    hide Multiplier;
    hide Spread;
    hide Delay;
    FieldsInPlainTerms(p);
    DelayIsTruncated(p, attempt, draw);
    hide Capped;
  }

  /** Half a second doubled twice. */
  lemma ThirdDelay(p: Policy, draw: real)
    requires p.initialDelay == 500 && p.maxDelay == 30000 && p.multiplier == Finite(2.0) && p.jitter == Finite(0.0)
    ensures Delay(p, 3, draw) == 2000
  {
    assert Power(2.0, 2) == 2.0 * Power(2.0, 1) == 4.0;
  }

  /** `draw` is what the generator returned from [1 - spread, 1 + spread]. */
  method CalculateRetryDelay(attempt: nat, p: Policy, draw: real) returns (delay: int)
    requires attempt <= 255
    requires 1.0 - Spread(p) <= draw <= 1.0 + Spread(p)
    ensures delay == Delay(p, attempt, draw)
  {
    hide Backoff;
    hide ClampedInitial;
    hide Multiplier;
    hide Maximum;
    hide Spread;
    var maximum := Maximum(p);
    var maxMs := maximum as real;
    var delayMs := ClampedInitial(p) as real;
    var multiplier := Multiplier(p);
    var i := 1;
    InitialBackoff(p);
    while i < attempt
      invariant 1 <= i && (if attempt >= 1 then i <= attempt else i == 1)
      invariant delayMs == Backoff(p, i)
    {
      BackoffStep(p, i);
      delayMs := RealMin(delayMs * multiplier, maxMs);
      i := i + 1;
    }
    assert Backoff(p, i) == Backoff(p, attempt);
    var spread := Spread(p);
    if spread > 0.0 {
      delayMs := delayMs * draw;
    }
    if delayMs >= maxMs {
      return maximum;
    }
    return delayMs.Floor;
  }

  lemma CappedIsNonnegative(d: real, m: real, cap: real, n: nat)
    requires d >= 0.0 && m >= 0.0 && cap >= 0.0
    ensures Capped(d, m, cap, n) >= 0.0
  {
    PowerIsNonnegative(m, n);
    ProductIsNonnegative(d, Power(m, n));
  }

  /** Whatever is drawn, the delay stays between nothing and the policy's maximum. */
  lemma DelayIsBounded(p: Policy, attempt: nat, draw: real)
    requires 1.0 - Spread(p) <= draw <= 1.0 + Spread(p)
    ensures 0 <= Delay(p, attempt, draw) <= Maximum(p)
  {
    hide Capped;
    var n := if attempt <= 1 then 0 else attempt - 1;
    CappedIsNonnegative(ClampedInitial(p) as real, Multiplier(p), Maximum(p) as real, n);
    ProductIsNonnegative(Backoff(p, attempt), draw);
  }

  /** Without jitter the delay is the closed form, truncated to whole milliseconds. */
  lemma DelayWithoutJitter(p: Policy, attempt: nat, draw: real)
    requires Spread(p) == 0.0
    ensures Delay(p, attempt, draw) == Backoff(p, attempt).Floor
  {
  }

  /** An ordinary policy without jitter waits initial * multiplier^(attempt - 1), at most its maximum. */
  lemma OrdinaryDelay(p: Policy, m: real, attempt: nat, draw: real, uncapped: real)
    requires p.multiplier == Finite(m) && m >= 0.0 && 0 <= p.initialDelay <= p.maxDelay && attempt >= 1
    requires p.jitter.NotFinite? || p.jitter.value <= 0.0
    requires uncapped == p.initialDelay as real * Power(m, attempt - 1)
    ensures Delay(p, attempt, draw) == RealMin(p.maxDelay as real, uncapped).Floor
  {
    hide Delay;
    DelayInPlainTerms(p, attempt, draw);
    assert Capped(p.initialDelay as real, m, p.maxDelay as real, attempt - 1) == RealMin(p.maxDelay as real, uncapped);
  }

  // ----- The retry loop

  /** The sleeps after all but the last of `calls` calls. */
  function TotalDelay(p: Policy, draws: nat -> real, calls: nat): int {
    if calls <= 1 then 0 else TotalDelay(p, draws, calls - 1) + Delay(p, calls - 1, draws(calls - 1))
  }

  lemma RetriedIffRepeats(outcome: Outcome, p: Policy)
    ensures ShouldRetry(outcome, p) <==> Repeats(outcome, p)
  {
  }

  lemma TimesOneMore(n: int, x: int)
    ensures (n + 1) * x == n * x + x
  {
  }

  /** All sleeps of one retried call together stay within the maximum per retry. */
  lemma {:induction false} TotalDelayIsBounded(p: Policy, draws: nat -> real, calls: nat)
    requires forall k :: 1.0 - Spread(p) <= draws(k) <= 1.0 + Spread(p)
    requires calls >= 1
    ensures 0 <= TotalDelay(p, draws, calls) <= (calls - 1) * Maximum(p)
  {
    if calls == 1 {
    } else {
      TotalDelayIsBounded(p, draws, calls - 1);
      DelayIsBounded(p, calls - 1, draws(calls - 1));
      TimesOneMore(calls - 2, Maximum(p));
    }
  }

  /**
   `operation(k)` is the outcome of the k-th call, `draws(k)` the jitter drawn after it. The attempt
   counter is 8 bits wide: it wraps at 256. With at least one attempt, every outcome before the last call
   was retryable, the last call is the first one that is not or the policy's last attempt, its outcome is
   what the caller gets, and the sleeps stay within the maximum per retry. The trailing error takes a
   policy without attempts.
   */
  method WithRetry(p: Policy, operation: nat -> Outcome, draws: nat -> real)
    returns (result: Outcome, calls: nat, slept: int)
    requires p.maxAttempts <= 255
    requires forall k :: 1.0 - Spread(p) <= draws(k) <= 1.0 + Spread(p)
    ensures p.maxAttempts == 0 ==> calls == 0 && slept == 0 && result == Err(NetworkError)
    ensures p.maxAttempts > 0 ==> 1 <= calls <= p.maxAttempts && result == operation(calls)
    ensures forall i :: 1 <= i < calls ==> Repeats(operation(i), p)
    ensures p.maxAttempts > 0 ==> calls == p.maxAttempts || !Repeats(result, p)
    ensures slept == TotalDelay(p, draws, calls)
    ensures p.maxAttempts > 0 ==> 0 <= slept <= (p.maxAttempts - 1) * Maximum(p)
  {
    hide Delay;
    hide ShouldRetry;
    hide Repeats;
    hide Maximum;
    hide Spread;
    calls := 0;
    slept := 0;
    var attempt := 1;
    while attempt <= p.maxAttempts
      invariant 1 <= attempt <= 255 && calls == attempt - 1
      invariant attempt == 1 || attempt <= p.maxAttempts
      invariant forall i :: 1 <= i < attempt ==> Repeats(operation(i), p)
      invariant slept == TotalDelay(p, draws, attempt)
      decreases p.maxAttempts - attempt
    {
      result := operation(attempt);
      RetriedIffRepeats(result, p);
      calls := calls + 1;
      if ShouldRetry(result, p) && attempt < p.maxAttempts {
        var delay := CalculateRetryDelay(attempt, p, draws(attempt));
        slept := slept + delay;
        attempt := (attempt + 1) % 256;
        continue;
      }
      TotalDelayIsBounded(p, draws, calls);
      ProductIsMonotone(calls - 1, p.maxAttempts - 1, Maximum(p));
      return;
    }
    result := Err(NetworkError);
  }
}
