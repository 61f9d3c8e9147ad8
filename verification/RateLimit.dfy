/** The demo key's fixed-window limiter. Instants and durations are in nanoseconds. */
module RateLimit {

  const SECOND := 1_000_000_000
  const WINDOW := 60 * SECOND

  /** Request counts are u32 in the source; they never pass the limit, which is one. */
  type U32 = n: int | 0 <= n < 0x1_0000_0000

  datatype Bucket = Bucket(windowStart: int, count: U32)

  datatype Decision = Ok(countInWindow: U32, limit: U32) | Exceeded(retryAfterSec: nat, limit: U32)

  /** Instant::duration_since: zero for an instant that lies behind. */
  function Since(now: int, start: int): nat {
    if now >= start then now - start else 0
  }

  function Rolled(s: Bucket, now: int): Bucket {
    if Since(now, s.windowStart) >= WINDOW then Bucket(now, 0) else s
  }

  predicate Admits(limit: U32, s: Bucket, now: int) {
    Rolled(s, now).count < limit
  }

  function Next(limit: U32, s: Bucket, now: int): Bucket {
    if Admits(limit, s, now) then Rolled(s, now).(count := Rolled(s, now).count + 1) else Rolled(s, now)
  }

  class DemoRateLimiter {
    const limitPerMin: U32
    var state: Bucket

    ghost predicate Valid()
      reads this
    {
      state.count <= limitPerMin
    }

    constructor (limit: U32, now: int)
      ensures Valid() && limitPerMin == limit && state == Bucket(now, 0)
    {
      limitPerMin := limit;
      state := Bucket(now, 0);
    }

    /** Counts one request. The hint lies between one second and sixty. */
    method Check(now: int) returns (d: Decision)
      requires Valid()
      modifies this
      ensures Valid() && state == Next(limitPerMin, old(state), now)
      ensures d.Ok? <==> Admits(limitPerMin, old(state), now)
      ensures d.limit == limitPerMin
      ensures d.Ok? ==> d.countInWindow == state.count
      ensures d.Exceeded? ==> d.retryAfterSec == Hint(state, now) && 1 <= d.retryAfterSec <= 60
    {
      var s := state;
      if Since(now, s.windowStart) >= WINDOW {
        s := Bucket(now, 0);
      }
      if s.count >= limitPerMin {
        state := s;
        var elapsed := Since(now, s.windowStart);
        var remaining := if elapsed <= WINDOW then WINDOW - elapsed else 0;
        var secs := remaining / SECOND;
        return Exceeded(if secs > 1 then secs else 1, limitPerMin);
      }
      s := s.(count := s.count + 1);
      state := s;
      d := Ok(s.count, limitPerMin);
    }
  }

  function Remaining(s: Bucket, now: int): int {
    WINDOW - Since(now, s.windowStart)
  }

  /** The seconds a refused caller is told to wait: whole seconds left, at least one. */
  function Hint(s: Bucket, now: int): nat {
    if Remaining(s, now) / SECOND > 1 then Remaining(s, now) / SECOND else 1
  }

  // ---------------------------------------------------------------------------
  // Waiting after a refusal
  // ---------------------------------------------------------------------------

  /** With nobody in between, a call after a refusal is admitted exactly when the window has run out by then. */
  lemma AdmittedAfterRefusal(limit: U32, s: Bucket, now: int, wait: nat)
    requires s.count <= limit && !Admits(limit, s, now)
    ensures var after := Next(limit, s, now);
      Admits(limit, after, now + wait) <==> limit > 0 && now + wait >= after.windowStart + WINDOW
  {
  }

  /**
   A call one second later than the hint is admitted, unless the refused call's instant lay more than a
   second before its window: instants are taken before the lock, so a late caller can bring an earlier one.
   The hint alone is enough exactly when the instant lies in the window and the time left is a whole number of
   seconds or less than one: fractions are cut off.
   */
  lemma HintPlusOneSuffices(limit: U32, s: Bucket, now: int)
    requires s.count <= limit && !Admits(limit, s, now) && limit > 0
    ensures var after := Next(limit, s, now);
      var hint := Hint(after, now);
      && (Admits(limit, after, now + (hint + 1) * SECOND) <==> after.windowStart <= now + SECOND)
      && (Admits(limit, after, now + hint * SECOND) <==>
            after.windowStart <= now
            && (Remaining(after, now) <= SECOND || Remaining(after, now) % SECOND == 0))
  {
    var after := Next(limit, s, now);
    var hint := Hint(after, now);
    AdmittedAfterRefusal(limit, s, now, (hint + 1) * SECOND);
    AdmittedAfterRefusal(limit, s, now, hint * SECOND);
  }

  // ---------------------------------------------------------------------------
  // Whole runs
  // ---------------------------------------------------------------------------

  function Run(limit: U32, s: Bucket, times: seq<int>): Bucket
    decreases |times|
  {
    if times == [] then s else Run(limit, Next(limit, s, times[0]), times[1..])
  }

  /** How many calls of a run are admitted. */
  function Admitted(limit: U32, s: Bucket, times: seq<int>): nat
    decreases |times|
  {
    if times == [] then 0
    else (if Admits(limit, s, times[0]) then 1 else 0) + Admitted(limit, Next(limit, s, times[0]), times[1..])
  }

  /** How often a window started at `start` can still be rolled by calls at instants of [a, b]. */
  function RollsLeft(start: int, a: int, b: int): nat
    requires a <= b
  {
    if start < a then (b - a) / WINDOW + 1 else if start <= b then (b - start) / WINDOW else 0
  }

  lemma RollUsesOne(start: int, a: int, b: int, t: int)
    requires a <= t <= b && Since(t, start) >= WINDOW
    ensures RollsLeft(t, a, b) + 1 <= RollsLeft(start, a, b)
  {
    assert (b - t + WINDOW) / WINDOW == (b - t) / WINDOW + 1;
  }

  lemma {:induction false} TimesMonotone(limit: nat, m: nat, n: nat)
    requires m <= n
    ensures limit * m <= limit * n
    decreases n - m
  {
    if m == n {
    } else {
      TimesMonotone(limit, m + 1, n);
      assert limit * (m + 1) == limit * m + limit;
    }
  }

  /** Calls need not arrive in the order of their instants: only the interval they lie in counts. */
  lemma {:induction false} AdmittedAtMost(limit: U32, s: Bucket, times: seq<int>, a: int, b: int)
    requires s.count <= limit && a <= b && forall k :: 0 <= k < |times| ==> a <= times[k] <= b
    ensures Admitted(limit, s, times) <= (limit - s.count) + limit * RollsLeft(s.windowStart, a, b)
    decreases |times|
  {
    if times == [] {
    } else {
      var t, next := times[0], Next(limit, s, times[0]);
      AdmittedAtMost(limit, next, times[1..], a, b);
      if Since(t, s.windowStart) >= WINDOW {
        RollUsesOne(s.windowStart, a, b, t);
        var m := RollsLeft(t, a, b);
        TimesMonotone(limit, m + 1, RollsLeft(s.windowStart, a, b));
        assert limit * (m + 1) == limit * m + limit;
      }
    }
  }

  /** Any calls within T nanoseconds: at most limit * (floor(T / 60 s) + 2) are admitted, whatever came before. */
  lemma AdmittedWithin(limit: U32, s: Bucket, times: seq<int>, a: int, span: nat)
    requires s.count <= limit && forall k :: 0 <= k < |times| ==> a <= times[k] <= a + span
    ensures Admitted(limit, s, times) <= limit * (span / WINDOW + 2)
  {
    AdmittedAtMost(limit, s, times, a, a + span);
    var r := RollsLeft(s.windowStart, a, a + span);
    if s.windowStart >= a && s.windowStart <= a + span {
      assert (a + span - s.windowStart) / WINDOW <= span / WINDOW;
    }
    var q := span / WINDOW;
    TimesMonotone(limit, r, q + 1);
    assert limit * (q + 2) == limit * (q + 1) + limit;
  }

  /** The documented worst case: never more than twice the limit in any half-open minute. */
  lemma AtMostTwiceTheLimitPerMinute(limit: U32, s: Bucket, times: seq<int>, a: int)
    requires s.count <= limit && forall k :: 0 <= k < |times| ==> a <= times[k] < a + 60_000_000_000
    ensures Admitted(limit, s, times) <= 2 * limit
  {
    AdmittedWithin(limit, s, times, a, WINDOW - 1);
    assert (WINDOW - 1) / WINDOW == 0;
  }

  // ---------------------------------------------------------------------------
  // The bound is attained
  // ---------------------------------------------------------------------------

  function Burst(t: int, n: nat): seq<int> {
    if n == 0 then [] else [t] + Burst(t, n - 1)
  }

  lemma {:induction false} BurstFills(limit: U32, s: Bucket, t: int, n: nat)
    requires s.count + n <= limit && 0 <= t - s.windowStart < WINDOW
    ensures Admitted(limit, s, Burst(t, n)) == n
    ensures Run(limit, s, Burst(t, n)) == Bucket(s.windowStart, s.count + n)
    decreases n
  {
    if n == 0 {
    } else {
      hide Admitted, Run, Burst;
      BurstStep(t, n);
      FirstCall(limit, s, t, Burst(t, n - 1));
      BurstFills(limit, Bucket(s.windowStart, s.count + 1), t, n - 1);
    }
  }

  /** A full window's worth of calls in the first instant of a new window. */
  lemma FreshBurst(limit: U32, s: Bucket, t: int)
    requires limit > 0 && t - s.windowStart >= WINDOW
    ensures Admitted(limit, s, Burst(t, limit)) == limit
    ensures Run(limit, s, Burst(t, limit)) == Bucket(t, limit)
  {
    hide Admitted, Run, Burst;
    BurstStep(t, limit);
    FirstCall(limit, s, t, Burst(t, limit - 1));
    BurstFills(limit, Bucket(t, 1), t, limit - 1);
  }

  lemma BurstStep(t: int, n: nat)
    requires n > 0
    ensures Burst(t, n) == [t] + Burst(t, n - 1)
  {
  }

  lemma FirstCall(limit: U32, s: Bucket, t: int, rest: seq<int>)
    ensures Admitted(limit, s, [t] + rest)
         == (if Admits(limit, s, t) then 1 else 0) + Admitted(limit, Next(limit, s, t), rest)
    ensures Run(limit, s, [t] + rest) == Run(limit, Next(limit, s, t), rest)
  {
    hide Next, Admits;
    assert ([t] + rest)[0] == t && ([t] + rest)[1..] == rest;
  }

  lemma {:induction false} AdmittedAppend(limit: U32, s: Bucket, x: seq<int>, y: seq<int>)
    ensures Admitted(limit, s, x + y) == Admitted(limit, s, x) + Admitted(limit, Run(limit, s, x), y)
    ensures Run(limit, s, x + y) == Run(limit, Run(limit, s, x), y)
    decreases |x|
  {
    if x == [] {
      assert x + y == y;
    } else {
      assert (x + y)[1..] == x[1..] + y;
      AdmittedAppend(limit, Next(limit, s, x[0]), x[1..], y);
    }
  }

  /** A burst just before the first minute is over, and one at each of the k + 1 minutes after it. */
  function WorstCase(limit: U32, k: nat): seq<int> {
    (if k == 0 then Burst(WINDOW - 1, limit) else WorstCase(limit, k - 1)) + Burst((k + 1) * WINDOW, limit)
  }

  /** For every k: limit * (k + 2) calls are admitted within k minutes and a nanosecond. */
  lemma {:induction false} BoundIsAttained(limit: U32, k: nat)
    requires limit > 0
    ensures Admitted(limit, Bucket(0, 0), WorstCase(limit, k)) == limit * (k + 2)
    ensures Run(limit, Bucket(0, 0), WorstCase(limit, k)) == Bucket((k + 1) * WINDOW, limit)
    ensures ((k + 1) * WINDOW - (WINDOW - 1)) / WINDOW == k
  {
    if k == 0 {
      BurstFills(limit, Bucket(0, 0), WINDOW - 1, limit);
      AdmittedAppend(limit, Bucket(0, 0), Burst(WINDOW - 1, limit), Burst(WINDOW, limit));
      FreshBurst(limit, Bucket(0, limit), WINDOW);
    } else {
      BoundIsAttained(limit, k - 1);
      AdmittedAppend(limit, Bucket(0, 0), WorstCase(limit, k - 1), Burst((k + 1) * WINDOW, limit));
      FreshBurst(limit, Bucket(k * WINDOW, limit), (k + 1) * WINDOW);
      assert limit * (k + 1) + limit == limit * (k + 2);
    }
  }

  lemma {:induction false} BurstSpan(t: int, n: nat)
    ensures |Burst(t, n)| == n && forall i :: 0 <= i < n ==> Burst(t, n)[i] == t
  {
    if n == 0 {
    } else {
      BurstSpan(t, n - 1);
    }
  }

  lemma {:induction false} WorstCaseSpan(limit: U32, k: nat)
    ensures forall i :: 0 <= i < |WorstCase(limit, k)| ==>
      WINDOW - 1 <= WorstCase(limit, k)[i] <= (k + 1) * WINDOW
  {
    hide Burst;
    var last := (k + 1) * WINDOW;
    BurstSpan(last, limit);
    if k == 0 {
      BurstSpan(WINDOW - 1, limit);
      AllWithin(Burst(WINDOW - 1, limit), Burst(last, limit), WINDOW - 1, last);
    } else {
      WorstCaseSpan(limit, k - 1);
      AllWithin(WorstCase(limit, k - 1), Burst(last, limit), WINDOW - 1, last);
    }
  }

  lemma AllWithin(x: seq<int>, y: seq<int>, a: int, b: int)
    requires forall i :: 0 <= i < |x| ==> a <= x[i] <= b
    requires forall i :: 0 <= i < |y| ==> a <= y[i] <= b
    ensures forall i :: 0 <= i < |x + y| ==> a <= (x + y)[i] <= b
  {
  }
}
