/**
  Events with different times to live: an input on which a bucket does not hold the newest unexpired
  events. An event that lives long is crowded out by 2000 later ones that then expire before it.
*/
module MixedLifetimes {
  import opened Wrappers
  import opened Sorting
  import opened CommitProtocol
  import opened ActivityFeed

  const LONG_LIFE: nat := 10_000
  const ALL_OTHERS_EXPIRED: nat := 2_500

  /** The first event lives longer than the others; times are in milliseconds. */
  function EventAt(i: nat): (e: Event)
    ensures |e.eventId| == i
  {
    Event(seq(i, _ => 'x'), "", i, if i == 0 then LONG_LIFE else ALL_OTHERS_EXPIRED, "", "")
  }

  function UploadAt(bucketId: string, i: nat): Request<ActivityOp> {
    Request(bucketId, Put("", EventAt(i), i))
  }

  /** The first k uploads, a millisecond apart. */
  function Uploads(bucketId: string, k: nat): (h: History)
    ensures |h| == k && forall i :: 0 <= i < k ==> h[i] == UploadAt(bucketId, i)
  {
    seq(k, i requires i >= 0 => UploadAt(bucketId, i))
  }

  function Entries(k: nat): (r: seq<StoredEvent>)
    ensures |r| == k && forall i :: 0 <= i < k ==> r[i] == Store(EventAt(i), i)
  {
    seq(k, i requires i >= 0 => Store(EventAt(i), i))
  }

  lemma EntriesStrict(k: nat)
    ensures Strict(Entries(k), OldestFirst)
  {
  }

  /** One more upload finds no event of its id and nothing expired. */
  lemma NextUpload(k: nat)
    requires k <= MAX_ACTIVITY_EVENTS
    ensures Pruned(Entries(k), k) == Entries(k) && FindEvent(Entries(k), EventAt(k).eventId).None?
    ensures WithEvent(Entries(k), Store(EventAt(k), k)) == Capped(Entries(k + 1))
  {
    FilterAll(Entries(k), (entry: StoredEvent) => entry.event.expiresAt > k);
    OldestFirstOrder();
    EntriesStrict(k + 1);
    assert Entries(k) + [Store(EventAt(k), k)] == Entries(k + 1);
    SortOfStrict(Entries(k + 1), OldestFirst);
    forall entry | entry in Entries(k)
      ensures entry.event.eventId != EventAt(k).eventId
    {
      var i :| 0 <= i < k && Entries(k)[i] == entry;
    }
  }

  function BucketAfter(bucketId: string, k: nat): Bucket {
    Bucket(bucketId, "", Capped(Entries(k)), 0, k - 1)
  }

  lemma FirstUpload(bucketId: string)
    ensures Decide(UploadAt(bucketId, 0), None) == Write(BucketAfter(bucketId, 1), Stored(Store(EventAt(0), 0)))
  {
    NextUpload(0);
    assert Entries(0) == [];
  }

  lemma LaterUpload(bucketId: string, k: nat)
    requires 1 <= k <= MAX_ACTIVITY_EVENTS
    ensures Decide(UploadAt(bucketId, k), Some(BucketAfter(bucketId, k)))
            == Write(BucketAfter(bucketId, k + 1), Stored(Store(EventAt(k), k)))
  {
    NextUpload(k);
  }

  /** What the last upload is decided on, and adds. */
  lemma LastUpload(bucketId: string, k: nat)
    ensures
      var before := Docs(Uploads(bucketId, k));
      var d := Decide(UploadAt(bucketId, k), Lookup(before, bucketId));
      && Docs(Uploads(bucketId, k + 1)) == Applied(before, bucketId, d)
      && Uploaded(Uploads(bucketId, k + 1), bucketId)
         == Uploaded(Uploads(bucketId, k), bucketId) + if d.answer.Stored? then {EventAt(k)} else {}
  {
    var h := Uploads(bucketId, k + 1);
    assert h[..k] == Uploads(bucketId, k) && h[k] == UploadAt(bucketId, k);
  }

  function Made(k: nat): set<Event> {
    if k == 0 then {} else Made(k - 1) + {EventAt(k - 1)}
  }

  lemma {:induction false} MadeEvents(k: nat)
    ensures forall e :: e in Made(k) ==> |e.eventId| < k && e == EventAt(|e.eventId|)
    ensures k > 0 ==> EventAt(0) in Made(k)
  {
    if k > 1 {
      MadeEvents(k - 1);
    }
  }

  ghost predicate Filled(bucketId: string, k: nat) {
    && Docs(Uploads(bucketId, k)) == map[bucketId := BucketAfter(bucketId, k)]
    && Uploaded(Uploads(bucketId, k), bucketId) == Made(k)
  }

  lemma FilledOnce(bucketId: string)
    ensures Filled(bucketId, 1)
  {
    assert Uploads(bucketId, 0) == [];
    LastUpload(bucketId, 0);
    FirstUpload(bucketId);
    assert Made(1) == Made(0) + {EventAt(0)};
  }

  lemma FilledAgain(bucketId: string, k: nat)
    requires 1 <= k <= MAX_ACTIVITY_EVENTS && Filled(bucketId, k)
    ensures Filled(bucketId, k + 1)
  {
    LastUpload(bucketId, k);
    LaterUpload(bucketId, k);
  }

  lemma {:induction false} Filling(bucketId: string, k: nat)
    requires 1 <= k <= MAX_ACTIVITY_EVENTS + 1
    ensures Filled(bucketId, k)
  {
    if k == 1 {
      FilledOnce(bucketId);
    } else {
      Filling(bucketId, k - 1);
      FilledAgain(bucketId, k - 1);
    }
  }

  /**
    After 2001 uploads the first event is gone, and when the others have expired the bucket holds
    nothing, although the first one lives on: it was crowded out by the last upload.
  */
  lemma LongLivedEventIsLost(bucketId: string)
    ensures
      var h, now := Uploads(bucketId, MAX_ACTIVITY_EVENTS + 1), ALL_OTHERS_EXPIRED;
      var all := Uploaded(h, bucketId);
      && NotBefore(h, bucketId, now) && IdsNameEvents(all) && bucketId in Docs(h)
      && EventAt(0) in Unexpired(all, now) && Pruned(Docs(h)[bucketId].events, now) == []
      && CrowdedOut(h, bucketId, EventAt(0), MAX_ACTIVITY_EVENTS)
      && !IsNewest(Pruned(Docs(h)[bucketId].events, now), MAX_ACTIVITY_EVENTS, Unexpired(all, now))
  {
    var h := Uploads(bucketId, MAX_ACTIVITY_EVENTS + 1);
    Filling(bucketId, MAX_ACTIVITY_EVENTS + 1);
    MadeEvents(MAX_ACTIVITY_EVENTS + 1);
    OthersExpire();
    assert h[..MAX_ACTIVITY_EVENTS + 1] == h;
    assert EventAt(0) in Uploaded(h, bucketId) && !Holds([], EventAt(0));
  }

  lemma OthersExpire()
    ensures
      var events := Capped(Entries(MAX_ACTIVITY_EVENTS + 1));
      FullOfLater(events, EventAt(0)) && Pruned(events, ALL_OTHERS_EXPIRED) == []
  {
    var events := Capped(Entries(MAX_ACTIVITY_EVENTS + 1));
    assert forall i :: 0 <= i < |events| ==> events[i] == Store(EventAt(i + 1), i + 1);
    FilterNone(events, (entry: StoredEvent) => entry.event.expiresAt > ALL_OTHERS_EXPIRED);
  }
}
