/**
  The replay guard of signed requests: a timestamp window and a table of recent nonces. Times are in
  nanoseconds. A signature fixes the second of a request's timestamp, but not the fraction behind it.
*/
module ReplayGuard {
  import opened Wrappers

  const SECOND: nat := 1_000_000_000
  const MAX_SKEW: nat := 300 * SECOND

  datatype NonceKey = NonceKey(peerId: string, nonce: string)

  datatype Verdict = Accepted | Stale | Replayed

  /** A verified signed request and the server time at which it is validated. */
  datatype AuthRequest = AuthRequest(key: NonceKey, timestamp: int, now: int)

  function Retained(seen: map<NonceKey, int>, oldestAllowed: int): map<NonceKey, int> {
    map key | key in seen && seen[key] >= oldestAllowed :: seen[key]
  }

  function InWindow(timestamp: int, now: int): bool {
    now - MAX_SKEW <= timestamp <= now + MAX_SKEW
  }

  function Judge(seen: map<NonceKey, int>, r: AuthRequest): Verdict {
    if !InWindow(r.timestamp, r.now) then Stale
    else if r.key in Retained(seen, r.now - MAX_SKEW) then Replayed
    else Accepted
  }

  /** The nonce table after a request. */
  function Updated(seen: map<NonceKey, int>, r: AuthRequest): map<NonceKey, int> {
    match Judge(seen, r)
    case Stale => seen
    case Replayed => Retained(seen, r.now - MAX_SKEW)
    case Accepted => Retained(seen, r.now - MAX_SKEW)[r.key := r.now]
  }

  class RequestAuthTracker {
    var seenNonces: map<NonceKey, int>

    constructor ()
      ensures seenNonces == map[]
    {
      seenNonces := map[];
    }

    method MarkNonceOnce(key: NonceKey, now: int) returns (isNew: bool)
      modifies this
      ensures isNew <==> key !in Retained(old(seenNonces), now - MAX_SKEW)
      ensures seenNonces ==
        var kept := Retained(old(seenNonces), now - MAX_SKEW);
        if isNew then kept[key := now] else kept
    {
      var oldestAllowed := now - MAX_SKEW;
      seenNonces := Retained(seenNonces, oldestAllowed);
      if key in seenNonces {
        return false;
      }
      seenNonces := seenNonces[key := now];
      return true;
    }

    method ValidateRequest(r: AuthRequest) returns (verdict: Verdict)
      modifies this
      ensures verdict == Judge(old(seenNonces), r) && seenNonces == Updated(old(seenNonces), r)
    {
      var oldestAllowed, newestAllowed := r.now - MAX_SKEW, r.now + MAX_SKEW;
      if r.timestamp < oldestAllowed || r.timestamp > newestAllowed {
        return Stale;
      }
      var first := MarkNonceOnce(r.key, r.now);
      return if first then Accepted else Replayed;
    }
  }

  // ---------- runs ----------

  function After(run: seq<AuthRequest>): map<NonceKey, int> {
    if run == [] then map[] else Updated(After(run[..|run| - 1]), run[|run| - 1])
  }

  predicate IsAccepted(run: seq<AuthRequest>, i: nat)
    requires i < |run|
  {
    Judge(After(run[..i]), run[i]) == Accepted
  }

  /**
    The clock readings may be out of order by up to `late`: the clock is read before the table is
    locked. With `late` 0 they never run backwards.
  */
  ghost predicate InOrder(run: seq<AuthRequest>, late: nat) {
    forall i, j :: 0 <= i <= j < |run| ==> run[i].now <= run[j].now + late
  }

  /** An accepted nonce stays in the table until a reading more than 300 seconds after its acceptance. */
  lemma {:induction false} NonceIsRemembered(run: seq<AuthRequest>, i: nat, k: nat)
    requires i < k <= |run| && IsAccepted(run, i)
    requires forall m :: i < m < k ==> run[m].now <= run[i].now + MAX_SKEW
    ensures run[i].key in After(run[..k]) && After(run[..k])[run[i].key] >= run[i].now
  {
    assert run[..k][..k - 1] == run[..k - 1];
    if k > i + 1 {
      NonceIsRemembered(run, i, k - 1);
    }
  }

  /**
    The same peer and nonce are accepted twice only with a reading in between, or at the second time,
    of more than 300 seconds after the first; in whatever order the readings come.
  */
  lemma AcceptedAgainOnlyAfter(run: seq<AuthRequest>, i: nat, j: nat)
    requires i < j < |run| && run[i].key == run[j].key && IsAccepted(run, i) && IsAccepted(run, j)
    ensures exists m :: i < m <= j && run[m].now - run[i].now > MAX_SKEW
  {
    if forall m :: i < m <= j ==> run[m].now <= run[i].now + MAX_SKEW {
      NonceIsRemembered(run, i, j);
    }
  }

  /** So they are accepted only more than 300 seconds apart, less the disorder of the readings. */
  lemma AcceptancesAreApart(run: seq<AuthRequest>, i: nat, j: nat, late: nat)
    requires InOrder(run, late) && i < j < |run| && run[i].key == run[j].key
    requires IsAccepted(run, i) && IsAccepted(run, j)
    ensures run[j].now - run[i].now > MAX_SKEW - late
  {
    AcceptedAgainOnlyAfter(run, i, j);
  }

  /** A nonce is not accepted again with a timestamp that was not ahead of the clock at its first acceptance. */
  lemma NotAcceptedAgain(run: seq<AuthRequest>, i: nat, j: nat, late: nat)
    requires InOrder(run, late) && i < j < |run| && run[i].key == run[j].key
    requires IsAccepted(run, i) && run[j].timestamp + late <= run[i].now
    ensures !IsAccepted(run, j)
  {
    if IsAccepted(run, j) {
      AcceptancesAreApart(run, i, j, late);
    }
  }

  /** The timestamps that one signature admits are those of one second. */
  predicate SameSecond(t: int, u: int) {
    t / SECOND == u / SECOND
  }

  function EndOfSecond(t: int): (end: int)
    ensures SameSecond(end, t) && forall u :: SameSecond(u, t) ==> u <= end
  {
    t / SECOND * SECOND + SECOND - 1
  }

  /** A signed request accepted when its whole second had passed is never accepted again. */
  lemma AcceptedAtMostOnce(run: seq<AuthRequest>, i: nat, j: nat, late: nat)
    requires InOrder(run, late) && i < j < |run|
    requires run[i].key == run[j].key && SameSecond(run[j].timestamp, run[i].timestamp)
    requires IsAccepted(run, i) && EndOfSecond(run[i].timestamp) + late <= run[i].now
    ensures !IsAccepted(run, j)
  {
    NotAcceptedAgain(run, i, j, late);
  }

  /**
    A run that begins with the acceptance of a request at time `at`, and accepts its peer and nonce
    again with the timestamp `again`.
  */
  ghost predicate AcceptsAgain(run: seq<AuthRequest>, j: nat, key: NonceKey, timestamp: int, again: int, at: int,
                               late: nat)
  {
    && InOrder(run, late) && 0 < j < |run|
    && run[0] == AuthRequest(key, timestamp, at) && IsAccepted(run, 0)
    && run[j].key == key && run[j].timestamp == again && IsAccepted(run, j)
  }

  /** Such a run, when the second timestamp is ahead of the clock: it is sent when the nonce is forgotten. */
  lemma ReplayInOrder(key: NonceKey, timestamp: int, again: int, at: int) returns (run: seq<AuthRequest>)
    requires InWindow(timestamp, at) && again > at
    ensures AcceptsAgain(run, 1, key, timestamp, again, at, 0)
  {
    var later := if again > at + MAX_SKEW + 1 then again else at + MAX_SKEW + 1;
    var first, second := AuthRequest(key, timestamp, at), AuthRequest(key, again, later);
    run := [first, second];
    assert run[..0] == [] && run[..1] == [first] && [first][..0] == [];
    assert After(run[..1]) == map[key := at];
  }

  /** And when it is not, but readings are late: another request makes the guard forget the nonce too soon. */
  lemma ReplayOutOfOrder(key: NonceKey, timestamp: int, again: int, at: int, late: nat) returns (run: seq<AuthRequest>)
    requires InWindow(timestamp, at) && at - late < again <= at
    ensures AcceptsAgain(run, 2, key, timestamp, again, at, late)
  {
    var other := NonceKey(key.peerId, key.nonce + "'");
    var sooner, later := again + MAX_SKEW, at + MAX_SKEW + 1;
    var first, between := AuthRequest(key, timestamp, at), AuthRequest(other, later, later);
    var second := AuthRequest(key, again, sooner);
    run := [first, between, second];
    assert run[..0] == [] && run[..1] == [first] && run[..2] == [first, between];
    assert [first, between][..1] == [first] && [first][..0] == [];
    assert After(run[..1]) == map[key := at];
    assert After(run[..2]) == map[other := later];
  }

  lemma ReplayIff(key: NonceKey, timestamp: int, again: int, at: int, late: nat)
    requires InWindow(timestamp, at)
    ensures (exists run, j :: AcceptsAgain(run, j, key, timestamp, again, at, late)) <==> again + late > at
  {
    if again > at {
      var run := ReplayInOrder(key, timestamp, again, at);
      assert AcceptsAgain(run, 1, key, timestamp, again, at, late);
    } else if again + late > at {
      var run := ReplayOutOfOrder(key, timestamp, again, at, late);
    } else {
      forall run, j
        ensures !AcceptsAgain(run, j, key, timestamp, again, at, late)
      {
        if AcceptsAgain(run, j, key, timestamp, again, at, late) {
          NotAcceptedAgain(run, 0, j, late);
        }
      }
    }
  }

  /** The signature of a request first accepted at time `at` is accepted again in this run. */
  ghost predicate SignatureAcceptedAgain(run: seq<AuthRequest>, j: nat, key: NonceKey, timestamp: int, at: int,
                                         late: nat)
  {
    && j < |run| && SameSecond(run[j].timestamp, timestamp)
    && AcceptsAgain(run, j, key, timestamp, run[j].timestamp, at, late)
  }

  /**
    A signed request first accepted at time `at` can be accepted a second time iff its second had not
    passed then, by the lateness of readings: the end of that second outlives the nonce. A request
    sent again unchanged can be, iff its very timestamp was ahead of the clock by that measure.
  */
  lemma AcceptedTwiceIff(key: NonceKey, timestamp: int, at: int, late: nat)
    requires InWindow(timestamp, at)
    ensures (exists run, j :: SignatureAcceptedAgain(run, j, key, timestamp, at, late))
            <==> EndOfSecond(timestamp) + late > at
    ensures (exists run, j :: AcceptsAgain(run, j, key, timestamp, timestamp, at, late)) <==> timestamp + late > at
  {
    var end := EndOfSecond(timestamp);
    ReplayIff(key, timestamp, timestamp, at, late);
    ReplayIff(key, timestamp, end, at, late);
    if end + late > at {
      var run, j :| AcceptsAgain(run, j, key, timestamp, end, at, late);
      assert SignatureAcceptedAgain(run, j, key, timestamp, at, late);
    }
    forall run: seq<AuthRequest>, j: nat | SignatureAcceptedAgain(run, j, key, timestamp, at, late)
      ensures end + late > at
    {
      ReplayIff(key, timestamp, run[j].timestamp, at, late);
    }
  }

  /**
    One signature, accepted half a second after its timestamp, and again 300.001 seconds later with
    another fraction of the same second, although neither is dated ahead of the clock.
  */
  lemma FractionOutlivesNonce(key: NonceKey)
    ensures
      var run := [AuthRequest(key, 0, SECOND / 2), AuthRequest(key, SECOND / 1000 * 999, SECOND / 1000 * 300501)];
      && SignatureAcceptedAgain(run, 1, key, 0, SECOND / 2, 0)
      && run[0].timestamp <= run[0].now && run[1].timestamp <= run[1].now
  {
    var first := AuthRequest(key, 0, SECOND / 2);
    var run := [first, AuthRequest(key, SECOND / 1000 * 999, SECOND / 1000 * 300501)];
    assert run[..0] == [] && run[..1] == [first] && [first][..0] == [];
    assert After(run[..1]) == map[key := SECOND / 2];
  }

  /**
    With a clock reading late by a millisecond, a request is accepted twice unchanged: another request
    drops its nonce 300.001 seconds after the first acceptance, and it is in the window at 300.
  */
  lemma LateReadingForgets(key: NonceKey, other: NonceKey)
    requires key != other
    ensures
      var millisecond := SECOND / 1000;
      var later := MAX_SKEW + millisecond;
      AcceptsAgain([AuthRequest(key, 0, 0), AuthRequest(other, later, later), AuthRequest(key, 0, MAX_SKEW)], 2,
                   key, 0, 0, 0, millisecond)
  {
    var later := MAX_SKEW + SECOND / 1000;
    var first, between := AuthRequest(key, 0, 0), AuthRequest(other, later, later);
    var run := [first, between, AuthRequest(key, 0, MAX_SKEW)];
    assert run[..0] == [] && run[..1] == [first] && run[..2] == [first, between];
    assert [first, between][..1] == [first] && [first][..0] == [];
    assert After(run[..1]) == map[key := 0];
    assert After(run[..2]) == map[other := later];
  }
}
