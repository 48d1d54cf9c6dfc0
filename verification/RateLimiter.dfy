/** The fixed-window rate limiter, with times in nanoseconds of a monotone clock. */
module RateLimiter {
  import opened Wrappers

  const SECOND: nat := 1_000_000_000
  const RATE_LIMIT_WINDOW: nat := 60 * SECOND

  datatype RateLimitClass = Read | Write

  datatype RateLimitKey = RateLimitKey(client: string, rateClass: RateLimitClass)

  datatype Bucket = Bucket(windowStart: int, count: nat)

  datatype Verdict = Admitted | Exceeded(retryAfterSeconds: nat)

  /** Time since `start`; zero when the clock is behind it. */
  function DurationSince(now: int, start: int): nat {
    if now >= start then now - start else 0
  }

  function RetryAfter(elapsed: nat): nat {
    var remaining: nat := if RATE_LIMIT_WINDOW >= elapsed then RATE_LIMIT_WINDOW - elapsed else 0;
    if remaining / SECOND >= 1 then remaining / SECOND else 1
  }

  /** The bucket of a key as a check at `now` finds it, after a new window was opened if one is due. */
  function Current(bucket: Option<Bucket>, now: int): Bucket {
    if bucket.None? || DurationSince(now, bucket.value.windowStart) >= RATE_LIMIT_WINDOW then Bucket(now, 0)
    else bucket.value
  }

  function Judge(bucket: Bucket, limit: nat, now: int): Verdict {
    if bucket.count >= limit then Exceeded(RetryAfter(DurationSince(now, bucket.windowStart))) else Admitted
  }

  function Charged(bucket: Bucket, verdict: Verdict): Bucket {
    if verdict.Admitted? then bucket.(count := bucket.count + 1) else bucket
  }

  class RateLimiter {
    var buckets: map<RateLimitKey, Bucket>

    constructor ()
      ensures buckets == map[]
    {
      buckets := map[];
    }

    method Check(key: RateLimitKey, limit: nat, now: int) returns (verdict: Verdict)
      modifies this
      ensures
        var bucket := Current(Lookup(old(buckets), key), now);
        verdict == Judge(bucket, limit, now) && buckets == old(buckets)[key := Charged(bucket, verdict)]
    {
      if key !in buckets {
        buckets := buckets[key := Bucket(now, 0)];
      }
      var bucket := buckets[key];
      if DurationSince(now, bucket.windowStart) >= RATE_LIMIT_WINDOW {
        bucket := Bucket(now, 0);
        buckets := buckets[key := bucket];
      }
      if bucket.count >= limit {
        return Exceeded(RetryAfter(DurationSince(now, bucket.windowStart)));
      }
      buckets := buckets[key := bucket.(count := bucket.count + 1)];
      return Admitted;
    }
  }

  // ---------- runs of checks on one key ----------

  /** The bucket of a key after checks at these times. */
  function After(limit: nat, times: seq<int>): Option<Bucket> {
    if times == [] then None
    else
      var n := |times| - 1;
      var bucket := Current(After(limit, times[..n]), times[n]);
      Some(Charged(bucket, Judge(bucket, limit, times[n])))
  }

  /** A check of any key. */
  datatype Attempt = Attempt(key: RateLimitKey, now: int)

  /** All buckets after checks of any keys, as `Check` leaves them. */
  function AfterAll(limits: RateLimitKey -> nat, run: seq<Attempt>): map<RateLimitKey, Bucket> {
    if run == [] then map[]
    else
      var n := |run| - 1;
      var before, a := AfterAll(limits, run[..n]), run[n];
      var bucket := Current(Lookup(before, a.key), a.now);
      before[a.key := Charged(bucket, Judge(bucket, limits(a.key), a.now))]
  }

  function TimesOf(run: seq<Attempt>, key: RateLimitKey): seq<int> {
    if run == [] then []
    else
      var n := |run| - 1;
      TimesOf(run[..n], key) + if run[n].key == key then [run[n].now] else []
  }

  /** Keys do not touch each other: a key's bucket is that of the checks of this key alone. */
  lemma {:induction false} KeysAreIndependent(limits: RateLimitKey -> nat, run: seq<Attempt>, key: RateLimitKey)
    ensures Lookup(AfterAll(limits, run), key) == After(limits(key), TimesOf(run, key))
  {
    if run != [] {
      var n := |run| - 1;
      KeysAreIndependent(limits, run[..n], key);
      var before, times := TimesOf(run[..n], key), TimesOf(run, key);
      if run[n].key == key {
        assert times[..|times| - 1] == before;
      } else {
        assert times == before;
      }
    }
  }

  /** The window check i falls into, by its start, and its verdict. */
  function WindowOf(limit: nat, times: seq<int>, i: nat): int
    requires i < |times|
  {
    Current(After(limit, times[..i]), times[i]).windowStart
  }

  function VerdictOf(limit: nat, times: seq<int>, i: nat): Verdict
    requires i < |times|
  {
    Judge(Current(After(limit, times[..i]), times[i]), limit, times[i])
  }

  /** How many checks at or after time `from` were admitted. */
  function AdmittedFrom(limit: nat, times: seq<int>, from: int): nat {
    if times == [] then 0
    else
      var n := |times| - 1;
      AdmittedFrom(limit, times[..n], from)
      + if times[n] >= from && VerdictOf(limit, times, n).Admitted? then 1 else 0
  }

  /** How many checks in the window that starts at `start` were admitted. */
  function AdmittedInWindow(limit: nat, times: seq<int>, start: int): nat {
    if times == [] then 0
    else
      var n := |times| - 1;
      AdmittedInWindow(limit, times[..n], start)
      + if WindowOf(limit, times, n) == start && VerdictOf(limit, times, n).Admitted? then 1 else 0
  }

  ghost predicate Monotone(times: seq<int>) {
    forall i, j :: 0 <= i <= j < |times| ==> times[i] <= times[j]
  }

  lemma {:induction false} AdmittedFromLater(limit: nat, times: seq<int>, a: int, b: int)
    requires a <= b
    ensures AdmittedFrom(limit, times, a) >= AdmittedFrom(limit, times, b)
  {
    if times != [] {
      AdmittedFromLater(limit, times[..|times| - 1], a, b);
    }
  }

  lemma {:induction false} NoneAfterLast(limit: nat, times: seq<int>, from: int)
    requires Monotone(times) && (times != [] ==> times[|times| - 1] < from)
    ensures AdmittedFrom(limit, times, from) == 0
  {
    if times != [] {
      NoneAfterLast(limit, times[..|times| - 1], from);
    }
  }

  /**
    What holds after every run with readings in order: the window is the one of the last check, and the
    count is the number admitted since its start.
  */
  ghost predicate Inv(limit: nat, times: seq<int>) {
    times != [] ==>
      var b := After(limit, times).value;
      && b.windowStart <= times[|times| - 1] < b.windowStart + RATE_LIMIT_WINDOW
      && b.count == AdmittedFrom(limit, times, b.windowStart) <= limit
  }

  lemma {:induction false} RunKeepsInv(limit: nat, times: seq<int>)
    requires Monotone(times)
    ensures Inv(limit, times)
  {
    if times != [] {
      var n := |times| - 1;
      RunKeepsInv(limit, times[..n]);
      NoneAfterLast(limit, times[..n], times[n] + 1);
      if n == 0 || After(limit, times).value.windowStart != After(limit, times[..n]).value.windowStart {
        NoneAfterLast(limit, times[..n], times[n]);
      }
    }
  }

  lemma {:induction false} CountWithinLimit(limit: nat, times: seq<int>)
    ensures times != [] ==> After(limit, times).value.count <= limit
  {
    if times != [] {
      CountWithinLimit(limit, times[..|times| - 1]);
    }
  }

  /**
    At most `limit` checks are admitted in one window, in whatever order the clock readings come. (The
    clock is read before the buckets are locked.)
  */
  lemma {:induction false} AtMostLimitPerWindow(limit: nat, times: seq<int>, start: int)
    ensures AdmittedInWindow(limit, times, start) <= limit
    ensures times != [] && start > After(limit, times).value.windowStart ==> AdmittedInWindow(limit, times, start) == 0
    ensures times != [] && start == After(limit, times).value.windowStart ==>
              AdmittedInWindow(limit, times, start) == After(limit, times).value.count
  {
    if times != [] {
      CountWithinLimit(limit, times);
      AtMostLimitPerWindow(limit, times[..|times| - 1], start);
    }
  }

  /**
    A check is rejected iff exactly `limit` checks were admitted in its window before it, in whatever
    order the clock readings come. The window began less than 60 seconds before the check's reading.
    The time to retry it is told is 1 to 60 whole seconds, and the rest of the window is less than one
    second longer.
  */
  lemma RejectedIffWindowFull(limit: nat, times: seq<int>, i: nat)
    requires i < |times|
    ensures
      var start, verdict := WindowOf(limit, times, i), VerdictOf(limit, times, i);
      && times[i] - RATE_LIMIT_WINDOW < start
      && AdmittedInWindow(limit, times[..i], start) <= limit
      && (verdict.Exceeded? <==> AdmittedInWindow(limit, times[..i], start) == limit)
      && (verdict.Exceeded? ==>
            var remaining := RATE_LIMIT_WINDOW - DurationSince(times[i], start);
            && 1 <= verdict.retryAfterSeconds <= 60
            && remaining < (verdict.retryAfterSeconds + 1) * SECOND
            && (verdict.retryAfterSeconds > 1 ==> verdict.retryAfterSeconds * SECOND <= remaining))
  {
    AtMostLimitPerWindow(limit, times[..i], WindowOf(limit, times, i));
    CountWithinLimit(limit, times[..i]);
  }

  /** With readings in order, those admitted in the window are those admitted since it began. */
  lemma InOrderSinceWindowBegan(limit: nat, times: seq<int>, i: nat)
    requires Monotone(times) && i < |times|
    ensures
      var start := WindowOf(limit, times, i);
      start <= times[i] && AdmittedFrom(limit, times[..i], start) == AdmittedInWindow(limit, times[..i], start)
  {
    RunKeepsInv(limit, times[..i]);
    AtMostLimitPerWindow(limit, times[..i], WindowOf(limit, times, i));
    if i > 0 {
      assert times[..i][i - 1] == times[i - 1];
    }
    if After(limit, times[..i]).None? || Current(After(limit, times[..i]), times[i]) != After(limit, times[..i]).value {
      NoneAfterLast(limit, times[..i], times[i]);
    }
  }

  // ---------- any span of 60 seconds, with readings that come late ----------

  /** Clock readings are out of order by at most `late`: the clock is read before the buckets are locked. */
  ghost predicate InOrder(times: seq<int>, late: nat) {
    forall i, j :: 0 <= i <= j < |times| ==> times[i] <= times[j] + late
  }

  /** Check n opens a window that starts between two times, both excluded. */
  predicate Opens(limit: nat, times: seq<int>, n: nat, lo: int, hi: int)
    requires n < |times|
  {
    && (n == 0 || WindowOf(limit, times, n) != After(limit, times[..n]).value.windowStart)
    && lo < WindowOf(limit, times, n) < hi
  }

  function Opened(limit: nat, times: seq<int>, lo: int, hi: int): nat {
    if times == [] then 0
    else
      var n := |times| - 1;
      Opened(limit, times[..n], lo, hi) + if Opens(limit, times, n, lo, hi) then 1 else 0
  }

  /** The room in the windows opened. */
  function Room(limit: nat, times: seq<int>, lo: int, hi: int): nat {
    if times == [] then 0
    else
      var n := |times| - 1;
      Room(limit, times[..n], lo, hi) + if Opens(limit, times, n, lo, hi) then limit else 0
  }

  lemma {:induction false} RoomOfOpened(limit: nat, times: seq<int>, lo: int, hi: int)
    ensures Room(limit, times, lo, hi) == limit * Opened(limit, times, lo, hi)
  {
    if times != [] {
      var windows := Opened(limit, times[..|times| - 1], lo, hi);
      RoomOfOpened(limit, times[..|times| - 1], lo, hi);
      assert limit * (windows + 1) == limit * windows + limit;
    }
  }

  /** Windows start at least 60 seconds apart, so a span has room for few. */
  lemma {:induction false} WindowsAreApart(limit: nat, times: seq<int>, lo: int, hi: int)
    ensures Opened(limit, times, lo, hi) > 0 ==>
              && times != []
              && lo + 1 + (Opened(limit, times, lo, hi) - 1) * RATE_LIMIT_WINDOW
                 <= var start := After(limit, times).value.windowStart; if start < hi then start else hi - 1
  {
    if times != [] {
      WindowsAreApart(limit, times[..|times| - 1], lo, hi);
    }
  }

  /** The start of the last window is a reading of the run. */
  lemma {:induction false} WindowIsReading(limit: nat, times: seq<int>)
    requires times != []
    ensures After(limit, times).value.windowStart in times
  {
    var n := |times| - 1;
    assert times[n] in times;
    if n > 0 {
      WindowIsReading(limit, times[..n]);
    }
  }

  lemma WindowNotLater(limit: nat, times: seq<int>, late: nat)
    requires InOrder(times, late) && times != []
    ensures After(limit, times).value.windowStart <= times[|times| - 1] + late
  {
    WindowIsReading(limit, times);
    var k :| 0 <= k < |times| && times[k] == After(limit, times).value.windowStart;
  }

  /** Room minus what is left of the current window, if that is one of those counted. */
  function Filled(limit: nat, times: seq<int>, lo: int, hi: int): int {
    Room(limit, times, lo, hi)
    - if times != [] && lo < After(limit, times).value.windowStart < hi
      then limit - After(limit, times).value.count else 0
  }

  /** One more check fills at least as much as it adds to the span. */
  lemma FilledNext(limit: nat, times: seq<int>, lo: int, hi: int)
    requires times != []
    ensures
      var n := |times| - 1;
      var inside := lo < WindowOf(limit, times, n) < hi;
      Filled(limit, times, lo, hi)
      >= Filled(limit, times[..n], lo, hi) + if inside && VerdictOf(limit, times, n).Admitted? then 1 else 0
  {
    CountWithinLimit(limit, times[..|times| - 1]);
  }

  /** The checks of a span that were admitted belong to the windows opened around it. */
  lemma {:induction false} AdmittedByWindows(limit: nat, times: seq<int>, from: int, late: nat)
    requires InOrder(times, late)
    ensures AdmittedFrom(limit, times, from) - AdmittedFrom(limit, times, from + RATE_LIMIT_WINDOW)
            <= Filled(limit, times, from - RATE_LIMIT_WINDOW, from + RATE_LIMIT_WINDOW + late)
  {
    if times != [] {
      AdmittedByWindows(limit, times[..|times| - 1], from, late);
      FilledNext(limit, times, from - RATE_LIMIT_WINDOW, from + RATE_LIMIT_WINDOW + late);
      WindowNotLater(limit, times, late);
    }
  }

  lemma MultiplyMonotone(a: nat, b: nat, c: nat)
    requires b <= c
    ensures a * b <= a * c
  {
  }

  /**
    How many windows can be open in a span of 60 seconds: two when readings come in order, and one more
    for every 60 seconds, begun, that they may come late beyond a nanosecond.
  */
  function WindowsAround(late: nat): nat {
    1 + (2 * RATE_LIMIT_WINDOW + late - 2) / RATE_LIMIT_WINDOW
  }

  lemma FewWindows(limit: nat, times: seq<int>, from: int, late: nat)
    ensures Opened(limit, times, from - RATE_LIMIT_WINDOW, from + RATE_LIMIT_WINDOW + late) <= WindowsAround(late)
  {
    WindowsAreApart(limit, times, from - RATE_LIMIT_WINDOW, from + RATE_LIMIT_WINDOW + late);
  }

  /** At most as many limits are admitted in any half-open span of 60 seconds as windows can be open in it. */
  lemma AtMostLimitsPerSpan(limit: nat, times: seq<int>, from: int, late: nat)
    requires InOrder(times, late)
    ensures AdmittedFrom(limit, times, from) - AdmittedFrom(limit, times, from + RATE_LIMIT_WINDOW)
            <= limit * WindowsAround(late)
  {
    AdmittedByWindows(limit, times, from, late);
    RoomOfOpened(limit, times, from - RATE_LIMIT_WINDOW, from + RATE_LIMIT_WINDOW + late);
    CountWithinLimit(limit, times);
    FewWindows(limit, times, from, late);
    MultiplyMonotone(limit, Opened(limit, times, from - RATE_LIMIT_WINDOW, from + RATE_LIMIT_WINDOW + late),
                     WindowsAround(late));
  }

  /**
    With readings in order, at most 2 * limit checks are admitted in any half-open span of 60 seconds.
    (A fixed window lets two full windows meet in one span.)
  */
  lemma AtMostTwiceLimitPerSpan(limit: nat, times: seq<int>, from: int)
    requires Monotone(times)
    ensures AdmittedFrom(limit, times, from) - AdmittedFrom(limit, times, from + RATE_LIMIT_WINDOW) <= 2 * limit
  {
    AtMostLimitsPerSpan(limit, times, from, 0);
  }

  /** No check with a reading from a up to b was admitted before check i. */
  ghost predicate NoneAdmittedBetween(limit: nat, times: seq<int>, i: nat, a: int, b: int)
    requires i <= |times|
  {
    forall k :: 0 <= k < i && a <= times[k] < b ==> VerdictOf(limit, times, k).Exceeded?
  }

  /** As many were admitted from a on as from b on iff none was in between. */
  lemma {:induction false} SameAdmittedIff(limit: nat, times: seq<int>, i: nat, a: int, b: int)
    requires a <= b && i <= |times|
    ensures AdmittedFrom(limit, times[..i], a) >= AdmittedFrom(limit, times[..i], b)
    ensures AdmittedFrom(limit, times[..i], a) == AdmittedFrom(limit, times[..i], b)
            <==> NoneAdmittedBetween(limit, times, i, a, b)
  {
    if i > 0 {
      SameAdmittedIff(limit, times, i - 1, a, b);
      assert times[..i][..i - 1] == times[..i - 1];
    }
  }

  /**
    When a check is rejected, between `limit` and 2 * limit were admitted in the last 60 seconds; and
    exactly `limit` iff none of those was admitted before the check's window began.
  */
  lemma RejectedLastMinute(limit: nat, times: seq<int>, i: nat)
    requires Monotone(times) && i < |times| && VerdictOf(limit, times, i).Exceeded?
    ensures
      var from, start := times[i] - RATE_LIMIT_WINDOW + 1, WindowOf(limit, times, i);
      && limit <= AdmittedFrom(limit, times[..i], from) <= 2 * limit
      && (AdmittedFrom(limit, times[..i], from) == limit <==> NoneAdmittedBetween(limit, times, i, from, start))
  {
    var from := times[i] - RATE_LIMIT_WINDOW + 1;
    RejectedIffWindowFull(limit, times, i);
    InOrderSinceWindowBegan(limit, times, i);
    SameAdmittedIff(limit, times, i, from, WindowOf(limit, times, i));
    AtMostTwiceLimitPerSpan(limit, times[..i], from);
    NoneAfterLast(limit, times[..i], from + RATE_LIMIT_WINDOW);
  }

  /**
    It need not be exactly `limit`: with limit 2 and checks at 0, 59, 60, 61 and 62 seconds the last
    is rejected although three were admitted in the 60 seconds before it.
  */
  lemma RejectedWithMoreThanLimit()
    ensures
      var times := [0, 59 * SECOND, 60 * SECOND, 61 * SECOND, 62 * SECOND];
      && VerdictOf(2, times, 4).Exceeded?
      && AdmittedFrom(2, times[..4], times[4] - RATE_LIMIT_WINDOW + 1) == 3
  {
    var t := [0, 59 * SECOND, 60 * SECOND, 61 * SECOND, 62 * SECOND];
    assert t[..4][..3] == t[..3] && t[..3][..2] == t[..2] && t[..2][..1] == t[..1] && t[..1][..0] == [];
    assert After(2, t[..1]) == Some(Bucket(0, 1));
    assert After(2, t[..2]) == Some(Bucket(0, 2));
    assert After(2, t[..3]) == Some(Bucket(60 * SECOND, 1));
    assert After(2, t[..4]) == Some(Bucket(60 * SECOND, 2));
    var from := t[4] - RATE_LIMIT_WINDOW + 1;
    assert AdmittedFrom(2, t[..1], from) == 0;
    assert AdmittedFrom(2, t[..2], from) == 1;
    assert AdmittedFrom(2, t[..3], from) == 2;
  }

  // ---------- for which limits the last minute holds exactly the limit ----------

  /** After a run with limit 1, one check was admitted from 60 seconds before its last window on. */
  ghost predicate OneAdmitted(times: seq<int>) {
    times != [] ==>
      var b := After(1, times).value;
      && b.count == 1
      && AdmittedFrom(1, times, b.windowStart + 1) == 0
      && AdmittedFrom(1, times, b.windowStart - RATE_LIMIT_WINDOW + 1) <= 1
  }

  lemma {:induction false} LimitOneAdmits(times: seq<int>)
    ensures OneAdmitted(times)
  {
    if times != [] {
      var n := |times| - 1;
      var prior, now := times[..n], times[n];
      LimitOneAdmits(prior);
      if prior != [] && After(1, times).value.windowStart != After(1, prior).value.windowStart {
        var start := After(1, prior).value.windowStart;
        AdmittedFromLater(1, prior, start + 1, now - RATE_LIMIT_WINDOW + 1);
        AdmittedFromLater(1, prior, start + 1, now + 1);
      }
    }
  }

  lemma LimitOneLastMinute(times: seq<int>, i: nat)
    requires Monotone(times) && i < |times| && VerdictOf(1, times, i).Exceeded?
    ensures AdmittedFrom(1, times[..i], times[i] - RATE_LIMIT_WINDOW + 1) == 1
  {
    var start := WindowOf(1, times, i);
    LimitOneAdmits(times[..i]);
    RejectedLastMinute(1, times, i);
    InOrderSinceWindowBegan(1, times, i);
    AdmittedFromLater(1, times[..i], start - RATE_LIMIT_WINDOW + 1, times[i] - RATE_LIMIT_WINDOW + 1);
  }

  function Repeated(t: int, n: nat): seq<int> {
    seq(n, _ => t)
  }

  lemma OneMore(limit: nat, prior: seq<int>, t: int, from: int)
    ensures
      var bucket := Current(After(limit, prior), t);
      var verdict := Judge(bucket, limit, t);
      && After(limit, prior + [t]) == Some(Charged(bucket, verdict))
      && AdmittedFrom(limit, prior + [t], from)
         == AdmittedFrom(limit, prior, from) + if t >= from && verdict.Admitted? then 1 else 0
  {
    assert (prior + [t])[..|prior|] == prior;
  }

  /** Checks at one time are admitted while there is room in the window. */
  lemma {:induction false} BurstIsAdmitted(limit: nat, before: seq<int>, t: int, n: nat, from: int)
    requires before != []
    requires
      var b := After(limit, before).value;
      0 <= t - b.windowStart < RATE_LIMIT_WINDOW && b.count + n <= limit
    ensures
      var b, times := After(limit, before).value, before + Repeated(t, n);
      && After(limit, times) == Some(b.(count := b.count + n))
      && AdmittedFrom(limit, times, from) == AdmittedFrom(limit, before, from) + if t >= from then n else 0
  {
    if n == 0 {
      assert before + Repeated(t, 0) == before;
    } else {
      var prior := before + Repeated(t, n - 1);
      BurstIsAdmitted(limit, before, t, n - 1, from);
      OneMore(limit, prior, t, from);
      assert before + Repeated(t, n) == prior + [t];
    }
  }

  /** One check, and all but one of the limit at 59 seconds. */
  function FirstBurst(limit: nat): seq<int>
    requires limit >= 2
  {
    [0] + Repeated(59 * SECOND, limit - 1)
  }

  /** Then the limit at 60 seconds. */
  function TwoBursts(limit: nat): seq<int>
    requires limit >= 2
  {
    FirstBurst(limit) + [60 * SECOND] + Repeated(60 * SECOND, limit - 1)
  }

  lemma FirstBurstAdmitted(limit: nat)
    requires limit >= 2
    ensures
      var times := FirstBurst(limit) + [60 * SECOND];
      After(limit, times) == Some(Bucket(60 * SECOND, 1)) && AdmittedFrom(limit, times, 1) == limit
  {
    var first := FirstBurst(limit);
    assert [0][..0] == [] && After(limit, [0]) == Some(Bucket(0, 1)) && AdmittedFrom(limit, [0], 1) == 0;
    BurstIsAdmitted(limit, [0], 59 * SECOND, limit - 1, 1);
    assert (first + [60 * SECOND])[..|first|] == first;
  }

  lemma TwoBurstsAdmitted(limit: nat)
    requires limit >= 2
    ensures After(limit, TwoBursts(limit)) == Some(Bucket(60 * SECOND, limit))
    ensures AdmittedFrom(limit, TwoBursts(limit), 1) == 2 * limit - 1
  {
    FirstBurstAdmitted(limit);
    BurstFills(limit, FirstBurst(limit) + [60 * SECOND], 60 * SECOND);
  }

  lemma BurstFills(limit: nat, before: seq<int>, t: int)
    requires limit >= 1 && before != [] && After(limit, before) == Some(Bucket(t, 1)) && t >= 1
    ensures After(limit, before + Repeated(t, limit - 1)) == Some(Bucket(t, limit))
    ensures AdmittedFrom(limit, before + Repeated(t, limit - 1), 1) == AdmittedFrom(limit, before, 1) + limit - 1
  {
    BurstIsAdmitted(limit, before, t, limit - 1, 1);
  }

  /** One more at 60 seconds is rejected, with nearly twice the limit admitted in the last minute. */
  lemma TwoBurstsRejected(limit: nat)
    requires limit >= 2
    ensures
      var times := TwoBursts(limit) + [60 * SECOND];
      var i := |times| - 1;
      && Monotone(times) && VerdictOf(limit, times, i).Exceeded?
      && AdmittedFrom(limit, times[..i], times[i] - RATE_LIMIT_WINDOW + 1) == 2 * limit - 1
  {
    TwoBurstsAdmitted(limit);
    assert (TwoBursts(limit) + [60 * SECOND])[..|TwoBursts(limit)|] == TwoBursts(limit);
  }

  /** A rejection comes with exactly the limit admitted in the last 60 seconds. */
  ghost predicate LastMinuteExact(limit: nat, times: seq<int>, i: nat)
    requires i < |times|
  {
    VerdictOf(limit, times, i).Exceeded? ==>
      AdmittedFrom(limit, times[..i], times[i] - RATE_LIMIT_WINDOW + 1) == limit
  }

  /** It does so in every run with readings in order, iff the limit is at most 1. */
  lemma LastMinuteExactIff(limit: nat)
    ensures (forall times, i: nat :: Monotone(times) && i < |times| ==> LastMinuteExact(limit, times, i))
            <==> limit <= 1
  {
    if limit >= 2 {
      TwoBurstsRejected(limit);
      assert !LastMinuteExact(limit, TwoBursts(limit) + [60 * SECOND], |TwoBursts(limit)|);
    } else {
      forall times, i: nat | Monotone(times) && i < |times|
        ensures LastMinuteExact(limit, times, i)
      {
        if VerdictOf(limit, times, i).Exceeded? {
          if limit == 1 {
            LimitOneLastMinute(times, i);
          } else {
            RejectedLastMinute(0, times, i);
          }
        }
      }
    }
  }
}
