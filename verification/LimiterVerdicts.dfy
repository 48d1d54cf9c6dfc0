/**
  The verdicts of the rate limiter by the times of the checks alone, in nanoseconds: which check opens a
  window, and that a window admits its first checks up to the limit and no other.
*/
module LimiterVerdicts {
  import opened Wrappers
  import opened RateLimiter

  /** The check that opened the window of check i: itself when 60 seconds have passed since the last one did. */
  function Opener(times: seq<int>, i: nat): (o: nat)
    requires i < |times|
    ensures o <= i
  {
    if i == 0 then 0
    else
      var o := Opener(times, i - 1);
      if times[i] - times[o] >= 60_000_000_000 then i else o
  }

  lemma {:induction false} OpenerOfPrefix(times: seq<int>, k: nat, i: nat)
    requires i < k <= |times|
    ensures Opener(times[..k], i) == Opener(times, i)
  {
    if i > 0 {
      OpenerOfPrefix(times, k, i - 1);
    }
  }

  /** The bucket after check i: its window, and how many of the window's checks were admitted. */
  lemma {:induction false} BucketByTimes(limit: nat, times: seq<int>, i: nat)
    requires i < |times|
    ensures
      var bucket, o := After(limit, times[..i + 1]), Opener(times, i);
      bucket.Some? && bucket.value.windowStart == times[o]
      && bucket.value.count == if i + 1 - o < limit then i + 1 - o else limit
  {
    assert times[..i + 1][..i] == times[..i] && times[..i + 1][i] == times[i];
    if i > 0 {
      BucketByTimes(limit, times, i - 1);
    }
  }

  /**
    Check i is admitted iff fewer than `limit` checks came before it since the one that opened its
    window. Otherwise it is told to retry after the whole seconds left of the 60, and at least one; a
    reading behind the window's start counts as the start.
  */
  lemma VerdictByTimes(limit: nat, times: seq<int>, i: nat)
    requires i < |times|
    ensures VerdictOf(limit, times, i).Admitted? <==> i - Opener(times, i) < limit
    ensures VerdictOf(limit, times, i).Exceeded? ==>
      var elapsed := times[i] - times[Opener(times, i)];
      var left := if elapsed > 0 then 60_000_000_000 - elapsed else 60_000_000_000;
      var s := VerdictOf(limit, times, i).retryAfterSeconds;
      0 < left && s >= 1 && (s * 1_000_000_000 <= left || s == 1) && left < (s + 1) * 1_000_000_000
  {
    if i > 0 {
      BucketByTimes(limit, times, i - 1);
      assert times[..i - 1 + 1] == times[..i];
    }
  }

  /** The verdict on each attempt of a run over many keys is that on its time among those of its key. */
  lemma AttemptVerdict(limits: RateLimitKey -> nat, run: seq<Attempt>, n: nat)
    requires n < |run|
    ensures
      var key := run[n].key;
      var times := TimesOf(run[..n], key) + [run[n].now];
      Judge(Current(Lookup(AfterAll(limits, run[..n]), key), run[n].now), limits(key), run[n].now)
      == VerdictOf(limits(key), times, |times| - 1)
  {
    var key := run[n].key;
    var times := TimesOf(run[..n], key) + [run[n].now];
    KeysAreIndependent(limits, run[..n], key);
    assert times[..|times| - 1] == TimesOf(run[..n], key);
  }
}
