/**
 * The sliding-window rate limiter that every outbound send goes through.
 *
 * Time is an integer clock in milliseconds; the window is one second.
 * The clock reading taken before a send is a parameter (`now`); after a sleep
 * the limiter reads the clock again, which then shows the wake-up time plus a
 * non-negative `overshoot` (the scheduler may wake the task late).
 */
module RateLimiting {

  /** Length of the sliding window: one second, in milliseconds. */
  const Window: int := 1000
  /** `execute` makes at most this many attempts. */
  const MaxRetries: nat := 3
  const DefaultMaxRequestsPerSecond: int := 35
  const DefaultMaxConcurrent: int := 20
  /** Bounds that the `setrate` command accepts. */
  const MinRate: int := 1
  const MaxRate: int := 50

  /** The timestamp `t` is still inside the window seen at time `now` (`now - t < 1.0`). */
  predicate Recent(now: int, t: int)
  {
    now - t < Window
  }

  /** The list comprehension that drops timestamps older than one second. */
  function Prune(times: seq<int>, now: int): (r: seq<int>)
    ensures |r| <= |times|
    ensures forall t :: t in r <==> t in times && Recent(now, t)
  {
    if times == [] then []
    else
      assert times == [times[0]] + times[1..];
      (if Recent(now, times[0]) then [times[0]] else []) + Prune(times[1..], now)
  }

  /** Pruning keeps every recent timestamp as often as it was recorded, and drops every other. */
  lemma {:induction false} PruneCounts(times: seq<int>, now: int)
    ensures forall t :: multiset(Prune(times, now))[t] == if Recent(now, t) then multiset(times)[t] else 0
  {
    if times != [] {
      PruneCounts(times[1..], now);
      assert times == [times[0]] + times[1..];
    }
  }

  /** Pruning filters element by element and keeps the order: it distributes over concatenation. */
  lemma {:induction false} PruneAppend(a: seq<int>, b: seq<int>, now: int)
    ensures Prune(a + b, now) == Prune(a, now) + Prune(b, now)
  {
    if a != [] {
      var head := if Recent(now, a[0]) then [a[0]] else [];
      assert a == [a[0]] + a[1..] && a + b == [a[0]] + (a[1..] + b);
      calc {
        Prune(a + b, now);
      == { PruneCons(a[0], a[1..] + b, now); }
        head + Prune(a[1..] + b, now);
      == { PruneAppend(a[1..], b, now); }
        head + (Prune(a[1..], now) + Prune(b, now));
      ==
        (head + Prune(a[1..], now)) + Prune(b, now);
      == { PruneCons(a[0], a[1..], now); }
        Prune(a, now) + Prune(b, now);
      }
    } else {
      assert a + b == b;
    }
  }

  /** Pruning looks at the first timestamp, then at the rest. */
  lemma PruneCons(x: int, rest: seq<int>, now: int)
    ensures Prune([x] + rest, now) == (if Recent(now, x) then [x] else []) + Prune(rest, now)
  {
    assert ([x] + rest)[1..] == rest;
  }

  predicate Sorted(s: seq<int>)
  {
    forall i, j :: 0 <= i < j < |s| ==> s[i] <= s[j]
  }

  /** The clock has not gone backwards: no recorded timestamp lies after `now`. */
  predicate NotAfter(times: seq<int>, now: int)
  {
    forall t :: t in times ==> t <= now
  }

  /**
   * The throughput bound: the timestamps are in order and any `max + 1`
   * consecutive sends span at least a full window, so no window of one
   * second holds more than `max` sends.
   */
  predicate WindowBounded(times: seq<int>, max: int)
  {
    && max >= 1
    && Sorted(times)
    && forall i :: 0 <= i && i + max < |times| ==> times[i + max] - times[i] >= Window
  }

  /** Number of leading timestamps that a prune at `now` drops. */
  function StaleCount(times: seq<int>, now: int): (k: nat)
    ensures k <= |times|
    ensures forall i :: 0 <= i < k ==> !Recent(now, times[i])
    ensures k < |times| ==> Recent(now, times[k])
  {
    if times == [] || Recent(now, times[0]) then 0 else 1 + StaleCount(times[1..], now)
  }

  /** On timestamps in order, pruning keeps a suffix: the surviving entries in their original order. */
  lemma {:induction false} PruneSortedIsSuffix(times: seq<int>, now: int)
    requires Sorted(times)
    ensures Prune(times, now) == times[StaleCount(times, now)..]
  {
    if times != [] {
      if Recent(now, times[0]) {
        AllRecentKept(times, now);
      } else {
        PruneSortedIsSuffix(times[1..], now);
        assert times[1..][StaleCount(times[1..], now)..] == times[1 + StaleCount(times[1..], now)..];
      }
    }
  }

  lemma {:induction false} AllRecentKept(times: seq<int>, now: int)
    requires Sorted(times)
    requires times != [] && Recent(now, times[0])
    ensures Prune(times, now) == times
  {
    if |times| > 1 {
      assert times[0] <= times[1];
      AllRecentKept(times[1..], now);
    }
  }

  /** A suffix of a bounded list is bounded. */
  lemma SuffixKeepsBound(times: seq<int>, max: int, k: nat)
    requires WindowBounded(times, max) && k <= |times|
    ensures WindowBounded(times[k..], max)
  {
    var p := times[k..];
    forall i | 0 <= i && i + max < |p| ensures p[i + max] - p[i] >= Window {
      assert p[i + max] == times[k + i + max] && p[i] == times[k + i];
    }
  }

  /** The entry `max` places after index `k` is at least a window later. */
  lemma SpanAt(times: seq<int>, max: int, k: nat)
    ensures WindowBounded(times, max) && k + max < |times| ==>
              times[k + max] in times && times[k + max] - times[k] >= Window
  {
  }

  /**
   * Within the bound, at most `max` timestamps fall inside the window at any
   * time not earlier than the newest one; taking `now` to be the newest
   * timestamp, this is the count of sends within one second of the newest.
   */
  lemma RecentBounded(times: seq<int>, max: int, now: int)
    requires max >= 1
    requires WindowBounded(times, max) && NotAfter(times, now)
    ensures |Prune(times, now)| <= max
  {
    PruneSortedIsSuffix(times, now);
    var k := StaleCount(times, now);
    SpanAt(times, max, k);
    if |times| - k > max {
      assert false;
    }
  }

  /** Appending a later timestamp keeps the bound when the new entry is a full window after the oldest of a full list. */
  lemma AppendKeepsBound(p: seq<int>, max: int, x: int)
    requires max >= 1 && WindowBounded(p, max) && NotAfter(p, x) && |p| <= max
    requires |p| == max ==> x - p[0] >= Window
    ensures WindowBounded(p + [x], max) && NotAfter(p + [x], x)
  {
    var n := p + [x];
    forall i, j | 0 <= i < j < |n| ensures n[i] <= n[j] {
      if j < |p| {
        assert n[i] == p[i] && n[j] == p[j];
      } else {
        assert n[i] in p;
      }
    }
    forall i | 0 <= i && i + max < |n| ensures n[i + max] - n[i] >= Window {
      assert i == 0;
    }
  }

  /** What one call of `_wait_for_rate_limit` does: how long it slept, when the send proceeds, the new list. */
  datatype Step = Step(slept: int, proceeded: int, times: seq<int>)

  /**
   * `_wait_for_rate_limit`: prune the list at `now`; if the window is full,
   * sleep until the oldest remaining entry leaves it and read the clock again;
   * then record the time at which the send proceeds.
   */
  function Throttle(times: seq<int>, max: int, now: int, overshoot: nat): (r: Step)
    requires max >= 1
    ensures |Prune(times, now)| >= max ==> r.slept > 0
    ensures |Prune(times, now)| >= max ==>
              && r.slept == Window - (now - Prune(times, now)[0])
              && r.proceeded == Prune(times, now)[0] + Window + overshoot
    ensures |Prune(times, now)| < max ==> r.slept == 0 && r.proceeded == now
    ensures r.proceeded >= now
    ensures r.times == Prune(times, now) + [r.proceeded]
  {
    var pruned := Prune(times, now);
    if |pruned| >= max then
      var sleepTime := Window - (now - pruned[0]);
      assert pruned[0] in pruned;
      if sleepTime > 0 then
        Step(sleepTime, now + sleepTime + overshoot, pruned + [now + sleepTime + overshoot])
      else
        Step(0, now, pruned + [now])
    else
      Step(0, now, pruned + [now])
  }

  /**
   * A full window is waited out exactly until its oldest kept entry leaves
   * it: that entry is still inside the window at every clock reading from
   * `now` up to the wake-up, and outside it at the wake-up.
   */
  lemma ThrottleSleepsUntilOldestLeaves(times: seq<int>, max: int, now: int, overshoot: nat)
    requires max >= 1 && |Prune(times, now)| >= max
    ensures var oldest := Prune(times, now)[0];
            var wake := Throttle(times, max, now, overshoot).proceeded - overshoot;
            && now < wake && !Recent(wake, oldest)
            && forall t :: now <= t < wake ==> Recent(t, oldest)
  {
    var p := Prune(times, now);
    assert p[0] in p;
  }

  /**
   * With a fixed ceiling of at least one and a clock that does not go
   * backwards, every call keeps the throughput bound, and the next call
   * again finds no timestamp after its clock reading.
   */
  lemma ThrottleKeepsWindowBound(times: seq<int>, max: int, now: int, overshoot: nat)
    requires max >= 1
    requires WindowBounded(times, max) && NotAfter(times, now)
    ensures var r := Throttle(times, max, now, overshoot);
            WindowBounded(r.times, max) && NotAfter(r.times, r.proceeded)
  {
    var r := Throttle(times, max, now, overshoot);
    var p := Prune(times, now);
    PruneSortedIsSuffix(times, now);
    SuffixKeepsBound(times, max, StaleCount(times, now));
    RecentBounded(times, max, now);
    if |p| >= max {
      assert p[0] in p;
    }
    AppendKeepsBound(p, max, r.proceeded);
  }

  /** A completed `_wait_for_rate_limit` leaves at most `max` sends in the window that ends at the recorded send. */
  lemma ThrottleRecentBounded(times: seq<int>, max: int, now: int, overshoot: nat)
    requires max >= 1
    requires WindowBounded(times, max) && NotAfter(times, now)
    ensures var r := Throttle(times, max, now, overshoot);
            |Prune(r.times, r.proceeded)| <= max
  {
    var r := Throttle(times, max, now, overshoot);
    ThrottleKeepsWindowBound(times, max, now, overshoot);
    RecentBounded(r.times, max, r.proceeded);
  }

  /** A run of sends through `_wait_for_rate_limit`: the time each proceeded, and the list after the last. */
  datatype Run = Run(proceeded: seq<int>, times: seq<int>)

  /** The time the last send of a run proceeded, or `start` when the run is empty. */
  function LastTime(proceeded: seq<int>, start: int): (t: int)
    ensures proceeded == [] ==> t == start
    ensures proceeded != [] ==> t == proceeded[|proceeded| - 1]
  {
    if proceeded == [] then start else proceeded[|proceeded| - 1]
  }

  /**
   * The lock of `_wait_for_rate_limit` lets one send through at a time: send
   * `i` reads the clock `gaps[i]` after the previous send proceeded (after
   * `start` for the first) and takes one throttle step.
   */
  function ThrottleAll(times: seq<int>, max: int, start: int, gaps: seq<nat>, overshoots: seq<nat>): (r: Run)
    requires max >= 1 && |gaps| == |overshoots|
    ensures |r.proceeded| == |gaps|
    decreases |gaps|
  {
    if gaps == [] then Run([], times)
    else
      var n := |gaps| - 1;
      var prev := ThrottleAll(times, max, start, gaps[..n], overshoots[..n]);
      var step := Throttle(prev.times, max, LastTime(prev.proceeded, start) + gaps[n], overshoots[n]);
      Run(prev.proceeded + [step.proceeded], step.times)
  }

  /** One more send of a run: the run so far, then one throttle step from the last send's time plus `gap`. */
  lemma ThrottleAllStep(times: seq<int>, max: int, start: int, gaps: seq<nat>, overshoots: seq<nat>, i: nat,
                        prev: Run, step: Step)
    requires max >= 1 && |gaps| == |overshoots| && i < |gaps|
    requires prev == ThrottleAll(times, max, start, gaps[..i], overshoots[..i])
    requires step == Throttle(prev.times, max, LastTime(prev.proceeded, start) + gaps[i], overshoots[i])
    ensures ThrottleAll(times, max, start, gaps[..i + 1], overshoots[..i + 1]) == Run(prev.proceeded + [step.proceeded], step.times)
  {
    assert gaps[..i + 1][..i] == gaps[..i] && overshoots[..i + 1][..i] == overshoots[..i];
  }

  /**
   * The invariant of a serialised run: the list keeps the throughput bound and
   * holds nothing after the last send, and the sends proceeded in time order,
   * none before `start`.
   */
  predicate RunBounded(r: Run, max: int, start: int)
  {
    && WindowBounded(r.times, max) && NotAfter(r.times, LastTime(r.proceeded, start))
    && Sorted(r.proceeded) && (forall i :: 0 <= i < |r.proceeded| ==> start <= r.proceeded[i])
  }

  /** Appending a time no earlier than the last keeps a sequence in order. */
  lemma SortedAppend(s: seq<int>, x: int)
    requires Sorted(s) && (s != [] ==> s[|s| - 1] <= x)
    ensures Sorted(s + [x])
  {
    var n := s + [x];
    forall i, j | 0 <= i < j < |n| ensures n[i] <= n[j] {
      if j < |s| {
        assert n[i] == s[i] && n[j] == s[j];
      } else {
        assert n[i] == s[i] && s[i] <= s[|s| - 1];
      }
    }
  }

  /** One throttle step from the last send's time plus a gap keeps the run invariant. */
  lemma RunStepBounded(prev: Run, max: int, start: int, gap: nat, overshoot: nat)
    requires max >= 1 && RunBounded(prev, max, start)
    ensures var step := Throttle(prev.times, max, LastTime(prev.proceeded, start) + gap, overshoot);
            RunBounded(Run(prev.proceeded + [step.proceeded], step.times), max, start)
  {
    var last := LastTime(prev.proceeded, start);
    var step := Throttle(prev.times, max, last + gap, overshoot);
    assert NotAfter(prev.times, last + gap);
    ThrottleKeepsWindowBound(prev.times, max, last + gap, overshoot);
    SortedAppend(prev.proceeded, step.proceeded);
    var ps := prev.proceeded + [step.proceeded];
    assert LastTime(ps, start) == step.proceeded;
    assert prev.proceeded != [] ==> start <= prev.proceeded[0] <= last;
    forall i | 0 <= i < |ps| ensures start <= ps[i] {
      if i < |prev.proceeded| {
        assert ps[i] == prev.proceeded[i];
      }
    }
  }

  /**
   * Serialised sends keep the throughput bound: the sends proceed in time
   * order, no earlier than `start`, and after the last one at most `max`
   * recorded sends lie within the window.
   */
  lemma {:induction false} ThrottleAllBounded(times: seq<int>, max: int, start: int, gaps: seq<nat>, overshoots: seq<nat>)
    requires max >= 1 && |gaps| == |overshoots|
    requires WindowBounded(times, max) && NotAfter(times, start)
    ensures var r := ThrottleAll(times, max, start, gaps, overshoots);
            && RunBounded(r, max, start)
            && |Prune(r.times, LastTime(r.proceeded, start))| <= max
  {
    var r := ThrottleAll(times, max, start, gaps, overshoots);
    ThrottleAllKeepsRun(times, max, start, gaps, overshoots);
    RecentBounded(r.times, max, LastTime(r.proceeded, start));
  }

  lemma {:induction false} ThrottleAllKeepsRun(times: seq<int>, max: int, start: int, gaps: seq<nat>, overshoots: seq<nat>)
    requires max >= 1 && |gaps| == |overshoots|
    requires WindowBounded(times, max) && NotAfter(times, start)
    ensures RunBounded(ThrottleAll(times, max, start, gaps, overshoots), max, start)
    decreases |gaps|
  {
    if gaps != [] {
      var n := |gaps| - 1;
      var prev := ThrottleAll(times, max, start, gaps[..n], overshoots[..n]);
      ThrottleAllKeepsRun(times, max, start, gaps[..n], overshoots[..n]);
      RunStepBounded(prev, max, start, gaps[n], overshoots[n]);
    }
  }

  /** What the wrapped call does on one attempt. */
  datatype Outcome<V> = Ok(value: V) | RateLimited(retryAfter: nat) | Failed(reason: string)

  /** How `execute` ends: with the call's result, or by raising. */
  datatype Completion<V> = Returned(value: V) | RaisedRateLimited(retryAfter: nat) | RaisedError(reason: string)

  /**
   * The retry loop of `execute`: `outcomes[i]` is what attempt `i` yields.
   * A rate-limited attempt sleeps for the reported `retry_after` and tries
   * again, except the last, which re-raises; success returns at once and any
   * other failure propagates at once.
   */
  method RunAttempts<V>(outcomes: seq<Outcome<V>>) returns (r: Completion<V>, attempts: nat, backoffs: seq<nat>)
    requires |outcomes| >= MaxRetries
    ensures 1 <= attempts <= MaxRetries
    ensures |backoffs| == attempts - 1
    ensures forall i :: 0 <= i < attempts - 1 ==> outcomes[i] == RateLimited(backoffs[i])
    ensures match outcomes[attempts - 1]
            case Ok(v) => r == Returned(v)
            case RateLimited(d) => attempts == MaxRetries && r == RaisedRateLimited(d)
            case Failed(e) => r == RaisedError(e)
  {
    backoffs := [];
    for attempt := 0 to MaxRetries
      invariant |backoffs| == attempt
      invariant forall i :: 0 <= i < attempt ==> outcomes[i] == RateLimited(backoffs[i])
      invariant attempt < MaxRetries
    {
      match outcomes[attempt]
      case Ok(v) =>
        return Returned(v), attempt + 1, backoffs;
      case RateLimited(d) =>
        if attempt == MaxRetries - 1 {
          return RaisedRateLimited(d), attempt + 1, backoffs;
        }
        backoffs := backoffs + [d];
      case Failed(e) =>
        return RaisedError(e), attempt + 1, backoffs;
    }
  }

  /** Counters that the `rate` command shows. */
  datatype Stats = Stats(recentRequests: nat, maxRequestsPerSecond: int, maxConcurrent: int, availableRequests: nat)

  class RateLimiter {
    var maxRequestsPerSecond: int
    const maxConcurrent: int
    /** Timestamps of recent sends, oldest first. */
    var requestTimes: seq<int>

    ghost predicate Valid()
      reads this
    {
      maxRequestsPerSecond >= MinRate
    }

    /** The window bound of `WindowBounded`, for the current ceiling and clock reading. */
    ghost predicate Bounded(now: int)
      reads this
    {
      WindowBounded(requestTimes, maxRequestsPerSecond) && NotAfter(requestTimes, now)
    }

    constructor (maxRequestsPerSecond: int := DefaultMaxRequestsPerSecond, maxConcurrent: int := DefaultMaxConcurrent)
      requires maxRequestsPerSecond >= MinRate
      ensures Valid()
      ensures this.maxRequestsPerSecond == maxRequestsPerSecond && this.maxConcurrent == maxConcurrent
      ensures requestTimes == []
    {
      this.maxRequestsPerSecond := maxRequestsPerSecond;
      this.maxConcurrent := maxConcurrent;
      requestTimes := [];
    }

    /** `_wait_for_rate_limit`, with the clock read as `now` and, after a sleep, as wake-up time plus `overshoot`. */
    method WaitForRateLimit(now: int, overshoot: nat) returns (slept: int, proceeded: int)
      requires Valid()
      modifies this
      ensures Valid() && maxRequestsPerSecond == old(maxRequestsPerSecond)
      ensures Throttle(old(requestTimes), maxRequestsPerSecond, now, overshoot) == Step(slept, proceeded, requestTimes)
      ensures old(Bounded(now)) ==> Bounded(proceeded)
    {
      ghost var before := requestTimes;
      var t := now;
      slept := 0;
      requestTimes := Prune(requestTimes, t);
      if |requestTimes| >= maxRequestsPerSecond {
        var sleepTime := Window - (t - requestTimes[0]);
        if sleepTime > 0 {
          slept := sleepTime;
          t := t + sleepTime + overshoot;
        }
      }
      requestTimes := requestTimes + [t];
      proceeded := t;
      if WindowBounded(before, maxRequestsPerSecond) && NotAfter(before, now) {
        ThrottleKeepsWindowBound(before, maxRequestsPerSecond, now, overshoot);
      }
    }

    /**
     * A run of sends that the lock of `_wait_for_rate_limit` lets through one
     * at a time: send `i` reads the clock `gaps[i]` after the previous one
     * proceeded (after `start` for the first).
     */
    method WaitInTurn(start: int, gaps: seq<nat>, overshoots: seq<nat>) returns (proceeded: seq<int>)
      requires Valid() && |gaps| == |overshoots|
      modifies this
      ensures Valid() && maxRequestsPerSecond == old(maxRequestsPerSecond)
      ensures Run(proceeded, requestTimes) == ThrottleAll(old(requestTimes), maxRequestsPerSecond, start, gaps, overshoots)
      ensures old(Bounded(start)) ==> Bounded(LastTime(proceeded, start))
    {
      ghost var times := requestTimes;
      var max := maxRequestsPerSecond;
      proceeded := [];
      for i := 0 to |gaps|
        invariant Valid() && maxRequestsPerSecond == max
        invariant Run(proceeded, requestTimes) == ThrottleAll(times, max, start, gaps[..i], overshoots[..i])
      {
        var now := LastTime(proceeded, start) + gaps[i];
        ghost var step := Throttle(requestTimes, max, now, overshoots[i]);
        ThrottleAllStep(times, max, start, gaps, overshoots, i, Run(proceeded, requestTimes), step);
        var _, p := WaitForRateLimit(now, overshoots[i]);
        proceeded := proceeded + [p];
      }
      assert gaps[..|gaps|] == gaps && overshoots[..|gaps|] == overshoots;
      if WindowBounded(times, max) && NotAfter(times, start) {
        ThrottleAllBounded(times, max, start, gaps, overshoots);
      }
    }

    /**
     * `execute`: throttle once, then run the retry loop over the attempt
     * outcomes the transport supplies. The retried attempts are neither
     * throttled nor recorded by the limiter.
     */
    method Execute<V>(now: int, overshoot: nat, outcomes: seq<Outcome<V>>)
      returns (r: Completion<V>, attempts: nat, backoffs: seq<nat>)
      requires Valid()
      requires |outcomes| >= MaxRetries
      modifies this
      ensures Valid() && maxRequestsPerSecond == old(maxRequestsPerSecond)
      ensures requestTimes == Throttle(old(requestTimes), maxRequestsPerSecond, now, overshoot).times
      ensures 1 <= attempts <= MaxRetries
      ensures |backoffs| == attempts - 1
      ensures forall i :: 0 <= i < attempts - 1 ==> outcomes[i] == RateLimited(backoffs[i])
      ensures match outcomes[attempts - 1]
              case Ok(v) => r == Returned(v)
              case RateLimited(d) => attempts == MaxRetries && r == RaisedRateLimited(d)
              case Failed(e) => r == RaisedError(e)
    {
      var _, _ := WaitForRateLimit(now, overshoot);
      r, attempts, backoffs := RunAttempts(outcomes);
    }

    /** `get_stats` at clock reading `now`. */
    function GetStats(now: int): (r: Stats)
      reads this
      ensures r.recentRequests == |Prune(requestTimes, now)|
      ensures r.recentRequests <= |requestTimes|
      ensures forall t :: t in requestTimes && Recent(now, t) ==> r.recentRequests > 0
      ensures r.maxRequestsPerSecond == maxRequestsPerSecond && r.maxConcurrent == maxConcurrent
      ensures r.recentRequests + r.availableRequests >= maxRequestsPerSecond
      ensures r.availableRequests > 0 ==> r.recentRequests + r.availableRequests == maxRequestsPerSecond
    {
      var recent := |Prune(requestTimes, now)|;
      var available := if maxRequestsPerSecond - recent > 0 then maxRequestsPerSecond - recent else 0;
      Stats(recent, maxRequestsPerSecond, maxConcurrent, available)
    }

    /**
     * While the window bound holds, the statistics never report more recent
     * sends than the ceiling, so the available count is exactly what is left.
     */
    lemma StatsWithinCeiling(now: int)
      requires Valid() && Bounded(now)
      ensures GetStats(now).recentRequests <= maxRequestsPerSecond
      ensures GetStats(now).availableRequests == maxRequestsPerSecond - GetStats(now).recentRequests
    {
      RecentBounded(requestTimes, maxRequestsPerSecond, now);
    }

    /** `_set_rate_limit`: accept a ceiling in [1, 50], otherwise leave it as it is. */
    method SetRateLimit(value: int) returns (accepted: bool)
      requires Valid()
      modifies this
      ensures Valid()
      ensures accepted <==> MinRate <= value <= MaxRate
      ensures maxRequestsPerSecond == if accepted then value else old(maxRequestsPerSecond)
      ensures requestTimes == old(requestTimes)
    {
      if value < MinRate || value > MaxRate {
        return false;
      }
      maxRequestsPerSecond := value;
      accepted := true;
    }
  }
}
