/**
  The verdicts of the replay guard over whole runs, in nanoseconds: which requests are stale, which are
  replays, and for how long and how often one signature can be accepted.
*/
module ReplayVerdicts {
  import opened Wrappers
  import opened ReplayGuard

  /** The timestamp is at most 300 seconds before or after the clock reading. */
  predicate Timely(r: AuthRequest) {
    -300_000_000_000 <= r.timestamp - r.now <= 300_000_000_000
  }

  function VerdictOf(run: seq<AuthRequest>, i: nat): Verdict
    requires i < |run|
  {
    Judge(After(run[..i]), run[i])
  }

  /**
    Request j keeps position i from using its nonce again: it was accepted, and no timely request after
    it, up to position i, came with a clock reading more than 300 seconds past its own.
  */
  predicate Blocks(run: seq<AuthRequest>, j: int, i: nat)
    requires i < |run|
  {
    && 0 <= j < i && VerdictOf(run, j) == Accepted
    && forall m :: j < m <= i && Timely(run[m]) ==> run[m].now - run[j].now <= 300_000_000_000
  }

  /** The nonce is in the table before position k, put there by the acceptance at position j. */
  predicate PutBy(run: seq<AuthRequest>, j: int, k: nat, key: NonceKey)
    requires k <= |run|
  {
    && 0 <= j < k && run[j].key == key && VerdictOf(run, j) == Accepted
    && forall m :: j < m < k && Timely(run[m]) ==> run[m].now - run[j].now <= 300_000_000_000
  }

  lemma PutByNext(run: seq<AuthRequest>, j: int, k: nat, key: NonceKey)
    requires k < |run| && j < k
    ensures PutBy(run, j, k + 1, key)
            <==> PutBy(run, j, k, key) && (Timely(run[k]) ==> run[k].now - run[j].now <= 300_000_000_000)
  {
  }

  /** What one more request makes of a nonce's entry. */
  lemma EntryNext(seen: map<NonceKey, int>, r: AuthRequest, key: NonceKey)
    ensures Lookup(Updated(seen, r), key)
            == if Timely(r) && r.key == key && Judge(seen, r) == Accepted then Some(r.now)
               else if key in seen && (Timely(r) ==> r.now - seen[key] <= 300_000_000_000) then Some(seen[key])
               else None
  {
  }

  /** The table holds just the nonces of accepted requests that no reading has made it forget since. */
  lemma {:induction false} TableByRun(run: seq<AuthRequest>, k: nat, key: NonceKey)
    requires k <= |run|
    ensures key in After(run[..k]) <==> exists j :: PutBy(run, j, k, key)
    ensures forall j :: PutBy(run, j, k, key) ==> Lookup(After(run[..k]), key) == Some(run[j].now)
  {
    if k > 0 {
      var i := k - 1;
      assert run[..k][..i] == run[..i];
      TableByRun(run, i, key);
      EntryNext(After(run[..i]), run[i], key);
      assert After(run[..k]) == Updated(After(run[..i]), run[i]);
      forall j | j < i
        ensures PutBy(run, j, k, key)
                <==> PutBy(run, j, i, key) && (Timely(run[i]) ==> run[i].now - run[j].now <= 300_000_000_000)
      {
        PutByNext(run, j, i, key);
      }
      if run[i].key == key && VerdictOf(run, i) == Accepted {
        assert PutBy(run, i, k, key);
      } else if key in After(run[..k]) {
        var j :| PutBy(run, j, i, key);
        assert PutBy(run, j, k, key);
      }
    }
  }

  /** What blocks a nonce is what keeps it in the table. */
  lemma BlocksIff(run: seq<AuthRequest>, j: int, i: nat)
    requires i < |run| && Timely(run[i])
    ensures Blocks(run, j, i) && run[j].key == run[i].key
            <==> PutBy(run, j, i, run[i].key) && run[i].now - run[j].now <= 300_000_000_000
  {
  }

  lemma StaleIff(run: seq<AuthRequest>, i: nat)
    requires i < |run|
    ensures VerdictOf(run, i) == Stale <==> !Timely(run[i])
    ensures Timely(run[i]) ==>
      var seen, r := After(run[..i]), run[i];
      (VerdictOf(run, i) == Replayed <==> r.key in seen && r.now - seen[r.key] <= 300_000_000_000)
  {
  }

  /**
    The verdict on every request of every run, whatever the order of the readings: stale iff its
    timestamp is more than 300 seconds off its reading; otherwise a replay iff an accepted request with
    its nonce blocks it; otherwise accepted.
  */
  lemma VerdictByRun(run: seq<AuthRequest>, i: nat)
    requires i < |run|
    ensures VerdictOf(run, i) == Stale
            <==> run[i].timestamp < run[i].now - 300_000_000_000 || run[i].timestamp > run[i].now + 300_000_000_000
    ensures VerdictOf(run, i) == Replayed
            <==> Timely(run[i]) && exists j :: Blocks(run, j, i) && run[j].key == run[i].key
  {
    var key := run[i].key;
    StaleIff(run, i);
    TableByRun(run, i, key);
    if Timely(run[i]) {
      if j :| Blocks(run, j, i) && run[j].key == key {
        BlocksIff(run, j, i);
      }
      if VerdictOf(run, i) == Replayed {
        var j :| PutBy(run, j, i, key);
        BlocksIff(run, j, i);
      }
    }
  }

  /** A stale request leaves no trace. */
  lemma StaleLeavesNoTrace(run: seq<AuthRequest>, i: nat)
    requires i < |run| && !Timely(run[i])
    ensures After(run[..i + 1]) == After(run[..i])
  {
    assert run[..i + 1][..i] == run[..i];
  }

  // ---------- how long and how often ----------

  /**
    A request sent again unchanged is accepted again at most 600 seconds after it was first, and one with
    the same signature, and so a timestamp in the same second, less than 601 seconds after.
  */
  lemma AcceptedAgainWithin(run: seq<AuthRequest>, i: nat, j: nat)
    requires i < j < |run| && VerdictOf(run, i) == VerdictOf(run, j) == Accepted
    ensures run[j].timestamp == run[i].timestamp ==> run[j].now - run[i].now <= 600_000_000_000
    ensures run[j].timestamp / 1_000_000_000 == run[i].timestamp / 1_000_000_000 ==>
              run[j].now - run[i].now < 601_000_000_000
  {
    VerdictByRun(run, i);
    VerdictByRun(run, j);
  }

  /** With readings in order, both acceptances are more than 300 seconds apart. */
  lemma AcceptedAgainAfter(run: seq<AuthRequest>, i: nat, j: nat)
    requires i < j < |run| && VerdictOf(run, i) == VerdictOf(run, j) == Accepted && run[i].key == run[j].key
    requires forall m, n :: 0 <= m <= n < |run| ==> run[m].now <= run[n].now
    ensures run[j].now - run[i].now > 300_000_000_000
  {
    VerdictByRun(run, j);
    assert !Blocks(run, i, j);
  }

  /** So a request is accepted unchanged at most twice, and one signature at most three times. */
  lemma AcceptedAtMostTwice(run: seq<AuthRequest>, i: nat, j: nat, k: nat)
    requires i < j < k < |run| && run[i].key == run[j].key == run[k].key
    requires run[k].timestamp == run[i].timestamp
    requires forall m, n :: 0 <= m <= n < |run| ==> run[m].now <= run[n].now
    ensures !(VerdictOf(run, i) == VerdictOf(run, j) == VerdictOf(run, k) == Accepted)
  {
    if VerdictOf(run, i) == VerdictOf(run, j) == VerdictOf(run, k) == Accepted {
      AcceptedAgainAfter(run, i, j);
      AcceptedAgainAfter(run, j, k);
      AcceptedAgainWithin(run, i, k);
    }
  }

  lemma SignatureAtMostThreeTimes(run: seq<AuthRequest>, i: nat, j: nat, k: nat, l: nat)
    requires i < j < k < l < |run| && run[i].key == run[j].key == run[k].key == run[l].key
    requires run[l].timestamp / 1_000_000_000 == run[i].timestamp / 1_000_000_000
    requires forall m, n :: 0 <= m <= n < |run| ==> run[m].now <= run[n].now
    ensures !(VerdictOf(run, i) == VerdictOf(run, j) == VerdictOf(run, k) == VerdictOf(run, l) == Accepted)
  {
    if VerdictOf(run, i) == VerdictOf(run, j) == VerdictOf(run, k) == VerdictOf(run, l) == Accepted {
      AcceptedAgainAfter(run, i, j);
      AcceptedAgainAfter(run, j, k);
      AcceptedAgainAfter(run, k, l);
      AcceptedAgainWithin(run, i, l);
    }
  }

  /** All requests of a run with one nonce and readings in order that are more than 300 seconds apart. */
  lemma FarApartAccepted(run: seq<AuthRequest>, i: nat)
    requires forall m :: 0 <= m < |run| ==> Timely(run[m])
    requires forall m, n :: 0 <= m < n < |run| ==> run[n].now - run[m].now > 300_000_000_000
    requires i < |run|
    ensures VerdictOf(run, i) == Accepted
  {
    VerdictByRun(run, i);
    assert Timely(run[i]);
  }

  /**
    The bounds are attained: a request dated 300 seconds ahead is accepted unchanged 600 seconds later,
    and its signature with the last fraction of the second just short of 601 seconds later, after an
    acceptance in between.
  */
  lemma BoundsAreAttained(key: NonceKey)
    ensures
      var run := [AuthRequest(key, 300_000_000_000, 0), AuthRequest(key, 300_000_000_000, 600_000_000_000)];
      VerdictOf(run, 0) == VerdictOf(run, 1) == Accepted
    ensures
      var run := [AuthRequest(key, 300_000_000_000, 0), AuthRequest(key, 300_000_000_000, 300_000_000_001),
                  AuthRequest(key, 300_999_999_999, 600_999_999_999)];
      VerdictOf(run, 0) == VerdictOf(run, 1) == VerdictOf(run, 2) == Accepted
  {
    var twice := [AuthRequest(key, 300_000_000_000, 0), AuthRequest(key, 300_000_000_000, 600_000_000_000)];
    FarApartAccepted(twice, 0);
    FarApartAccepted(twice, 1);
    var thrice := [AuthRequest(key, 300_000_000_000, 0), AuthRequest(key, 300_000_000_000, 300_000_000_001),
                   AuthRequest(key, 300_999_999_999, 600_999_999_999)];
    FarApartAccepted(thrice, 0);
    FarApartAccepted(thrice, 1);
    FarApartAccepted(thrice, 2);
  }
}
