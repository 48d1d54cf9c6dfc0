/**
  Activity buckets: encrypted events kept oldest first, deduplicated by id, expiring, and capped at
  2000. The in-place bucket, its decisions per document, and what every history leaves in a bucket.
*/
module ActivityFeed {
  import opened Wrappers
  import opened Keys
  import opened Sorting
  import opened CommitProtocol
  import Utf8

  const MAX_ACTIVITY_EVENTS: nat := 2_000

  /** An activity event; `json` is its JSON text and `sha256` the hex digest of that text. */
  datatype Event = Event(
    eventId: string,
    sourceDeviceId: string,
    createdAt: int,
    expiresAt: int,
    json: string,
    sha256: string)

  datatype StoredEvent = StoredEvent(event: Event, storedAt: int, sizeBytes: nat, contentSha256: string)

  datatype Bucket = Bucket(bucketId: string, authHash: string, events: seq<StoredEvent>, createdAt: int, updatedAt: int)

  datatype Page = Page(events: seq<StoredEvent>, nextCursor: Option<Key>, hasMore: bool)

  datatype ActivityStatus =
    | Stored(stored: StoredEvent)
    | Found(page: Page)
    | NotFound
    | Unauthorized

  function EventKey(e: Event): Key {
    Key(e.createdAt, e.eventId)
  }

  predicate OldestFirst(a: StoredEvent, b: StoredEvent) {
    KeyLess(EventKey(a.event), EventKey(b.event))
  }

  predicate IsAfter(entry: StoredEvent, cursor: Key) {
    KeyLess(cursor, EventKey(entry.event))
  }

  function Store(event: Event, now: int): StoredEvent {
    StoredEvent(event, now, |Utf8.Encode(event.json)|, "sha256:" + event.sha256)
  }

  function Pruned(events: seq<StoredEvent>, now: int): seq<StoredEvent> {
    Filter(events, (entry: StoredEvent) => entry.event.expiresAt > now)
  }

  /** Pruning keeps exactly the events that expire later, in order; and only the pruned list does. */
  lemma PrunedIsExact(kept: seq<StoredEvent>, events: seq<StoredEvent>, now: int)
    ensures kept == Pruned(events, now)
            <==> KeepsExactly(kept, events, (entry: StoredEvent) => entry.event.expiresAt > now)
  {
    FilterIsExact(kept, events, (entry: StoredEvent) => entry.event.expiresAt > now);
  }

  /** The first event with the id. */
  function FindEvent(events: seq<StoredEvent>, eventId: string): (r: Option<StoredEvent>)
    ensures r.Some? ==> r.value in events && r.value.event.eventId == eventId
    ensures r.None? ==> forall entry :: entry in events ==> entry.event.eventId != eventId
  {
    if events == [] then None
    else if events[0].event.eventId == eventId then Some(events[0])
    else FindEvent(events[1..], eventId)
  }

  /** All but the oldest events beyond the cap, of a list sorted oldest first. */
  function Capped(events: seq<StoredEvent>): seq<StoredEvent> {
    if |events| > MAX_ACTIVITY_EVENTS then events[|events| - MAX_ACTIVITY_EVENTS..] else events
  }

  function WithEvent(events: seq<StoredEvent>, stored: StoredEvent): seq<StoredEvent> {
    Capped(Sort(events + [stored], OldestFirst))
  }

  /** The position of the first event after the cursor; the length of the list when there is none. */
  function FirstAfter(events: seq<StoredEvent>, cursor: Key): (i: nat)
    ensures i <= |events|
  {
    if events == [] || IsAfter(events[0], cursor) then 0 else 1 + FirstAfter(events[1..], cursor)
  }

  /** The page of a sorted list behind a cursor. */
  function PageOf(events: seq<StoredEvent>, limit: nat, cursor: Option<Key>): Page {
    var start := if cursor.Some? then FirstAfter(events, cursor.value) else 0;
    var tail := events[start..];
    var hasMore := |tail| > limit;
    var candidates := if hasMore then tail[..limit] else tail;
    var nextCursor :=
      if hasMore && candidates != [] then Some(EventKey(candidates[|candidates| - 1].event)) else None;
    Page(candidates, nextCursor, hasMore)
  }

  class StoredActivityBucket {
    var bucketId: string
    var authHash: string
    var events: seq<StoredEvent>
    var createdAt: int
    var updatedAt: int

    function State(): Bucket
      reads this
    {
      Bucket(bucketId, authHash, events, createdAt, updatedAt)
    }

    constructor New(bucketId: string, authHash: string, now: int)
      ensures State() == Bucket(bucketId, authHash, [], now, now)
    {
      this.bucketId, this.authHash := bucketId, authHash;
      events, createdAt, updatedAt := [], now, now;
    }

    constructor Load(bucket: Bucket)
      ensures State() == bucket
    {
      bucketId, authHash, events := bucket.bucketId, bucket.authHash, bucket.events;
      createdAt, updatedAt := bucket.createdAt, bucket.updatedAt;
    }

    /** Exactly the events that expire later stay, in their order, and nothing else changes. */
    method PruneExpired(now: int)
      modifies this
      ensures State() == old(State()).(events := events)
      ensures KeepsExactly(events, old(events), (entry: StoredEvent) => entry.event.expiresAt > now)
      ensures events == Pruned(old(events), now)
    {
      PrunedIsExact(Pruned(events, now), events, now);
      events := Pruned(events, now);
    }

    method Put(tokenHash: string, event: Event, now: int) returns (status: ActivityStatus)
      modifies this
      ensures tokenHash != old(authHash) ==> status == Unauthorized && State() == old(State())
      ensures tokenHash == old(authHash) ==>
        var kept := Pruned(old(events), now);
        match FindEvent(kept, event.eventId)
        case Some(existing) => status == Stored(existing) && State() == old(State()).(events := kept)
        case None =>
          && status == Stored(Store(event, now))
          && State() == old(State()).(events := WithEvent(kept, Store(event, now)), updatedAt := now)
    {
      if authHash != tokenHash {
        return Unauthorized;
      }
      PruneExpired(now);
      var existing := FindEvent(events, event.eventId);
      if existing.Some? {
        return Stored(existing.value);
      }
      var stored := Store(event, now);
      events := events + [stored];
      updatedAt := now;
      events := Sort(events, OldestFirst);
      if |events| > MAX_ACTIVITY_EVENTS {
        var removeCount := |events| - MAX_ACTIVITY_EVENTS;
        events := events[removeCount..];
      }
      return Stored(stored);
    }

    method List(tokenHash: string, limit: nat, cursor: Option<Key>, now: int) returns (status: ActivityStatus)
      modifies this
      ensures tokenHash != old(authHash) ==> status == Unauthorized && State() == old(State())
      ensures tokenHash == old(authHash) ==>
        && State() == old(State()).(events := Sort(Pruned(old(events), now), OldestFirst))
        && status == Found(PageOf(events, limit, cursor))
    {
      if authHash != tokenHash {
        return Unauthorized;
      }
      PruneExpired(now);
      events := Sort(events, OldestFirst);
      return Found(PageOf(events, limit, cursor));
    }
  }

  // ---------- the stores ----------

  datatype ActivityOp =
    | Put(tokenHash: string, event: Event, now: int)
    | List(tokenHash: string, limit: nat, cursor: Option<Key>, now: int)

  /** What an operation on a bucket answers and commits for the document it read. */
  function Decide(request: Request<ActivityOp>, doc: Option<Bucket>): Decision<Bucket, ActivityStatus> {
    match request.op
    case Put(tokenHash, event, now) =>
      (match doc
       case None =>
         Write(Bucket(request.name, tokenHash, WithEvent([], Store(event, now)), now, now), Stored(Store(event, now)))
       case Some(bucket) =>
         if bucket.authHash != tokenHash then Keep(Unauthorized)
         else
           var kept := Pruned(bucket.events, now);
           match FindEvent(kept, event.eventId)
           case Some(existing) => Write(bucket.(events := kept), Stored(existing))
           case None =>
             Write(bucket.(events := WithEvent(kept, Store(event, now)), updatedAt := now), Stored(Store(event, now))))
    case List(tokenHash, limit, cursor, now) =>
      (match doc
       case None => Keep(NotFound)
       case Some(bucket) =>
         if bucket.authHash != tokenHash then Keep(Unauthorized)
         else
           var events := Sort(Pruned(bucket.events, now), OldestFirst);
           var answer := Found(PageOf(events, limit, cursor));
           if |events| != |bucket.events| then Write(bucket.(events := events), answer) else Keep(answer))
  }

  // ---------- what a history leaves in a bucket ----------

  type History = seq<Request<ActivityOp>>

  function Docs(h: History): map<string, Bucket> {
    Replay(Decide, h)
  }

  /** The events of all accepted uploads to the bucket. */
  function Uploaded(h: History, bucketId: string): set<Event> {
    if h == [] then {}
    else
      var n := |h| - 1;
      Uploaded(h[..n], bucketId)
      + if h[n].name == bucketId && h[n].op.Put? && LockedDecision(Decide, h, n).answer.Stored?
        then {h[n].op.event} else {}
  }

  /** An id names one event. */
  ghost predicate IdsNameEvents(all: set<Event>) {
    forall e, f :: e in all && f in all && e.eventId == f.eventId ==> e == f
  }

  /** A later event does not expire sooner; so it is when all events have the same time to live. */
  ghost predicate ExpireInOrder(all: set<Event>) {
    forall e, f :: e in all && f in all && KeyLess(EventKey(e), EventKey(f)) ==> e.expiresAt <= f.expiresAt
  }

  /** With the same time to live for all, as the client gives them, events expire in order. */
  lemma FixedLifetimeExpiresInOrder(all: set<Event>, lifetime: int)
    requires forall e :: e in all ==> e.expiresAt == e.createdAt + lifetime
    ensures ExpireInOrder(all)
  {
  }

  ghost predicate Holds(events: seq<StoredEvent>, e: Event) {
    exists i :: 0 <= i < |events| && events[i].event == e
  }

  ghost predicate AllLater(events: seq<StoredEvent>, e: Event) {
    forall i :: 0 <= i < |events| ==> KeyLess(EventKey(e), EventKey(events[i].event))
  }

  /** The list is strictly sorted, and holds exactly the newest `n` events of the set. */
  ghost predicate IsNewest(events: seq<StoredEvent>, n: nat, all: set<Event>) {
    && Strict(events, OldestFirst)
    && |events| <= n
    && (forall i :: 0 <= i < |events| ==> events[i].event in all)
    && (forall e :: e in all && !Holds(events, e) ==> |events| == n && AllLater(events, e))
  }

  function Unexpired(all: set<Event>, now: int): set<Event> {
    set e | e in all && e.expiresAt > now
  }

  function Events(entries: seq<StoredEvent>): (r: seq<Event>)
    ensures |r| == |entries|
    ensures forall i :: 0 <= i < |entries| ==> r[i] == entries[i].event
  {
    seq(|entries|, i requires 0 <= i < |entries| => entries[i].event)
  }

  predicate EventBefore(a: Event, b: Event) {
    KeyLess(EventKey(a), EventKey(b))
  }

  function Members(events: seq<Event>): (r: set<Event>)
    ensures forall e :: e in r <==> e in events
  {
    if events == [] then {} else {events[0]} + Members(events[1..])
  }

  lemma {:induction false} StrictMembersSize(events: seq<Event>)
    requires Strict(events, EventBefore)
    ensures |Members(events)| == |events|
  {
    if events != [] {
      StrictMembersSize(events[1..]);
      TextTrichotomy(events[0].eventId, events[0].eventId);
      forall i | 0 < i < |events|
        ensures events[0] != events[i]
      {
        assert EventBefore(events[0], events[i]);
      }
      assert events[0] !in events[1..];
    }
  }

  /** A set with at least as many elements as another, but without one of them, has one of its own. */
  lemma OwnElement<T>(a: set<T>, b: set<T>, e: T)
    requires |a| <= |b| && e in a && e !in b
    ensures exists f :: f in b && f !in a
  {
    if b <= a {
      SubsetSize(b, a - {e});
    }
  }

  /** Of two newest-n lists of one set, neither has a member the other lacks. */
  lemma NewestHasMembers(s: seq<StoredEvent>, t: seq<StoredEvent>, n: nat, all: set<Event>)
    requires IsNewest(s, n, all) && IsNewest(t, n, all)
    ensures Members(Events(s)) <= Members(Events(t))
  {
    var a, b := Members(Events(s)), Members(Events(t));
    HoldsIsMembership(s);
    HoldsIsMembership(t);
    if e :| e in a && e !in b {
      assert |a| <= |b| by {
        StrictMembersSize(Events(s));
        StrictMembersSize(Events(t));
      }
      OwnElement(a, b, e);
      var f :| f in b && f !in a;
      LaterBothWays(s, t, e, f);
    }
  }

  /** Two events cannot each be before all events of the other's list. */
  lemma LaterBothWays(s: seq<StoredEvent>, t: seq<StoredEvent>, e: Event, f: Event)
    requires AllLater(s, f) && AllLater(t, e) && Holds(s, e)
    ensures !Holds(t, f)
  {
    TextTrichotomy(e.eventId, f.eventId);
  }

  lemma HoldsIsMembership(s: seq<StoredEvent>)
    ensures forall e :: Holds(s, e) <==> e in Members(Events(s))
  {
    forall e
      ensures Holds(s, e) <==> e in Members(Events(s))
    {
      if e in Events(s) {
        var i :| 0 <= i < |s| && Events(s)[i] == e;
      }
      if Holds(s, e) {
        var i :| 0 <= i < |s| && s[i].event == e;
        assert Events(s)[i] == e;
      }
    }
  }

  lemma SubsetSize<T>(a: set<T>, b: set<T>)
    requires a <= b
    ensures |a| <= |b|
  {
    assert b == a + (b - a);
  }

  /** IsNewest determines the events and their order. */
  lemma NewestUnique(s: seq<StoredEvent>, t: seq<StoredEvent>, n: nat, all: set<Event>)
    requires IsNewest(s, n, all) && IsNewest(t, n, all)
    ensures Events(s) == Events(t)
  {
    NewestHasMembers(s, t, n, all);
    NewestHasMembers(t, s, n, all);
    KeyOrder();
    assert forall e :: e in Events(s) <==> e in Members(Events(s));
    assert forall e :: e in Events(t) <==> e in Members(Events(t));
    StrictUnique(Events(s), Events(t), EventBefore);
  }

  // ---------- the invariant of a bucket ----------

  /** Sorted events of the set, each once, at most the cap. */
  ghost predicate Shape(events: seq<StoredEvent>, all: set<Event>) {
    && Strict(events, OldestFirst)
    && |events| <= MAX_ACTIVITY_EVENTS
    && (forall i :: 0 <= i < |events| ==> events[i].event in all)
  }

  /** The list is full of events later than this one. */
  ghost predicate FullOfLater(events: seq<StoredEvent>, e: Event) {
    |events| == MAX_ACTIVITY_EVENTS && AllLater(events, e)
  }

  /**
    What a bucket keeps at time `now` when events expire in order: an event of the set that is missing
    has expired, or the bucket is full of later ones.
  */
  ghost predicate Keeps(events: seq<StoredEvent>, all: set<Event>, now: int) {
    Shape(events, all) && forall e :: e in all && !Holds(events, e) && e.expiresAt > now ==> FullOfLater(events, e)
  }

  lemma OldestFirstOrder()
    ensures StrictWeakOrder(OldestFirst)
  {
    KeyOrder();
  }

  lemma PruneShape(events: seq<StoredEvent>, all: set<Event>, at: int)
    requires Shape(events, all)
    ensures Shape(Pruned(events, at), all)
    ensures forall i :: 0 <= i < |Pruned(events, at)| ==> Pruned(events, at)[i].event.expiresAt > at
  {
    var alive := (entry: StoredEvent) => entry.event.expiresAt > at;
    var kept := Pruned(events, at);
    FilterElements(events, alive);
    FilterStrict(events, alive, OldestFirst);
    forall i | 0 <= i < |kept|
      ensures kept[i].event in all && kept[i].event.expiresAt > at
    {
      assert kept[i] in kept;
    }
  }

  /** Dropping the events that had expired at a time up to `now` keeps the invariant. */
  lemma PruneKeeps(events: seq<StoredEvent>, all: set<Event>, now: int, at: int)
    requires Keeps(events, all, now) && ExpireInOrder(all) && at <= now
    ensures Keeps(Pruned(events, at), all, now)
    ensures forall i :: 0 <= i < |Pruned(events, at)| ==> Pruned(events, at)[i].event.expiresAt > at
  {
    var kept := Pruned(events, at);
    PruneShape(events, all, at);
    forall e | e in all && !Holds(kept, e) && e.expiresAt > now
      ensures FullOfLater(kept, e)
    {
      MissingStaysMissing(events, all, now, at, e);
    }
  }

  lemma PrunedHolds(events: seq<StoredEvent>, later: int, e: Event)
    ensures Holds(Pruned(events, later), e) <==> Holds(events, e) && e.expiresAt > later
  {
    var kept := Pruned(events, later);
    FilterElements(events, (entry: StoredEvent) => entry.event.expiresAt > later);
    if Holds(kept, e) {
      var i :| 0 <= i < |kept| && kept[i].event == e;
      assert kept[i] in kept;
    }
    if Holds(events, e) && e.expiresAt > later {
      var i :| 0 <= i < |events| && events[i].event == e;
      assert events[i] in kept;
    }
  }

  lemma MissingStaysMissing(events: seq<StoredEvent>, all: set<Event>, now: int, at: int, e: Event)
    requires Keeps(events, all, now) && ExpireInOrder(all) && at <= now
    requires e in all && !Holds(Pruned(events, at), e) && e.expiresAt > now
    ensures Pruned(events, at) == events && |events| == MAX_ACTIVITY_EVENTS && AllLater(events, e)
  {
    PrunedHolds(events, at, e);
    var alive := (entry: StoredEvent) => entry.event.expiresAt > at;
    forall entry | entry in events
      ensures alive(entry)
    {
      var i :| 0 <= i < |events| && events[i] == entry;
    }
    FilterAll(events, alive);
  }

  lemma UploadSeparated(events: seq<StoredEvent>, stored: StoredEvent)
    requires Strict(events, OldestFirst)
    requires forall entry :: entry in events ==> entry.event.eventId != stored.event.eventId
    ensures Separated(events + [stored], OldestFirst)
  {
    var all := events + [stored];
    forall i, j | 0 <= i < j < |all|
      ensures OldestFirst(all[i], all[j]) || OldestFirst(all[j], all[i])
    {
      if j == |events| {
        assert events[i] in events;
        TextTrichotomy(events[i].event.eventId, stored.event.eventId);
      } else {
        assert OldestFirst(events[i], events[j]);
      }
    }
  }

  /** The sorted list with the new event, before it is cut. */
  lemma SortedUpload(events: seq<StoredEvent>, all: set<Event>, stored: StoredEvent)
    requires Shape(events, all)
    requires forall entry :: entry in events ==> entry.event.eventId != stored.event.eventId
    ensures
      var sorted := Sort(events + [stored], OldestFirst);
      && Strict(sorted, OldestFirst) && |sorted| == |events| + 1
      && (forall entry :: entry in sorted <==> entry in events + [stored])
    ensures Shape(WithEvent(events, stored), all + {stored.event})
  {
    OldestFirstOrder();
    UploadSeparated(events, stored);
    SortStrict(events + [stored], OldestFirst);
    SortMultiset(events + [stored], OldestFirst);
    SortElements(events + [stored], OldestFirst);
    CappedShape(Sort(events + [stored], OldestFirst), events, all, stored);
  }

  lemma CappedShape(sorted: seq<StoredEvent>, events: seq<StoredEvent>, all: set<Event>, stored: StoredEvent)
    requires Strict(sorted, OldestFirst) && Shape(events, all)
    requires forall entry :: entry in sorted ==> entry in events + [stored]
    ensures Shape(Capped(sorted), all + {stored.event})
  {
    forall i | 0 <= i < |sorted|
      ensures sorted[i].event in all + {stored.event}
    {
      assert sorted[i] in events + [stored];
    }
  }

  /** Uploading a new event keeps the invariant for the set with the event. */
  lemma UploadKeeps(events: seq<StoredEvent>, all: set<Event>, now: int, stored: StoredEvent)
    requires Keeps(events, all, now)
    requires forall entry :: entry in events ==> entry.event.eventId != stored.event.eventId
    ensures Keeps(WithEvent(events, stored), all + {stored.event}, now)
  {
    var kept := WithEvent(events, stored);
    SortedUpload(events, all, stored);
    forall e | e in all + {stored.event} && !Holds(kept, e) && e.expiresAt > now
      ensures FullOfLater(kept, e)
    {
      MissingAfterUpload(events, all, now, stored, Sort(events + [stored], OldestFirst), e);
    }
  }

  lemma SameElementsHold(s: seq<StoredEvent>, t: seq<StoredEvent>, e: Event)
    requires forall entry :: entry in s ==> entry in t
    ensures Holds(s, e) ==> Holds(t, e)
  {
    if Holds(s, e) {
      var i :| 0 <= i < |s| && s[i].event == e;
      assert s[i] in s;
    }
  }

  /** Capping a sorted list drops only events before all those it keeps. */
  lemma CappedHolds(sorted: seq<StoredEvent>, e: Event)
    requires Strict(sorted, OldestFirst) && Holds(sorted, e)
    ensures Holds(Capped(sorted), e)
            || (|Capped(sorted)| == MAX_ACTIVITY_EVENTS && AllLater(Capped(sorted), e))
  {
    var kept, k := Capped(sorted), |sorted| - MAX_ACTIVITY_EVENTS;
    var i :| 0 <= i < |sorted| && sorted[i].event == e;
    if k > 0 && i >= k {
      assert kept[i - k] == sorted[i];
    }
  }

  lemma MissingAfterUpload(events: seq<StoredEvent>, all: set<Event>, now: int, stored: StoredEvent,
                           sorted: seq<StoredEvent>, e: Event)
    requires Keeps(events, all, now)
    requires Strict(sorted, OldestFirst) && |sorted| == |events| + 1
    requires forall entry :: entry in sorted <==> entry in events + [stored]
    requires e in all + {stored.event} && !Holds(Capped(sorted), e) && e.expiresAt > now
    ensures |Capped(sorted)| == MAX_ACTIVITY_EVENTS && AllLater(Capped(sorted), e)
  {
    SameElementsHold(events + [stored], sorted, e);
    SameElementsHold(events, events + [stored], e);
    assert (events + [stored])[|events|] == stored;
    assert e == stored.event ==> Holds(events + [stored], e);
    if Holds(sorted, e) {
      CappedHolds(sorted, e);
    } else {
      AllButFirstLater(events, stored, sorted, e);
    }
  }

  /** An event before all of `events` is before all of the list with one more, but perhaps its first. */
  lemma AllButFirstLater(events: seq<StoredEvent>, stored: StoredEvent, sorted: seq<StoredEvent>, e: Event)
    requires AllLater(events, e) && |events| > 0
    requires Strict(sorted, OldestFirst) && |sorted| == |events| + 1
    requires forall entry :: entry in sorted <==> entry in events + [stored]
    ensures AllLater(sorted[1..], e)
  {
    KeyOrder();
    forall i | 1 <= i < |sorted|
      ensures KeyLess(EventKey(e), EventKey(sorted[i].event))
    {
      assert OldestFirst(sorted[0], sorted[i]);
      assert sorted[0] in events + [stored] && sorted[i] in events + [stored];
      assert sorted[i] in events || sorted[0] in events;
    }
  }

  /** Kept events that are all unexpired are the newest of the unexpired ones. */
  lemma KeepsNewest(events: seq<StoredEvent>, all: set<Event>, now: int)
    requires Keeps(events, all, now)
    requires forall i :: 0 <= i < |events| ==> events[i].event.expiresAt > now
    ensures IsNewest(events, MAX_ACTIVITY_EVENTS, Unexpired(all, now))
  {
  }

  // ---------- every history ----------

  /** `now` is no earlier than any operation on the bucket. */
  ghost predicate NotBefore(h: History, bucketId: string, now: int) {
    forall i :: 0 <= i < |h| && h[i].name == bucketId ==> h[i].op.now <= now
  }

  /** One operation on a bucket, at a time up to the invariant's. */
  lemma DecideKeeps(request: Request<ActivityOp>, bucket: Bucket, all: set<Event>, now: int)
    requires Keeps(bucket.events, all, now) && request.op.now <= now
    requires ExpireInOrder(all)
    requires Decide(request, Some(bucket)).answer.Stored? ==> IdsNameEvents(all + {request.op.event})
    ensures
      var d := Decide(request, Some(bucket));
      var after := if d.Write? then d.value.events else bucket.events;
      Keeps(after, if d.answer.Stored? then all + {request.op.event} else all, now)
  {
    if bucket.authHash == request.op.tokenHash {
      var at := request.op.now;
      var kept := Pruned(bucket.events, at);
      PruneKeeps(bucket.events, all, now, at);
      match request.op {
        case Put(_, event, _) =>
          var existing := FindEvent(kept, event.eventId);
          if existing.None? {
            UploadKeeps(kept, all, now, Store(event, at));
          } else {
            var i :| 0 <= i < |kept| && kept[i] == existing.value;
            assert all + {event} == all;
          }
        case List(_, _, _, _) =>
          OldestFirstOrder();
          SortOfStrict(kept, OldestFirst);
          FilterAll(bucket.events, (entry: StoredEvent) => entry.event.expiresAt > at);
      }
    }
  }

  lemma {:induction false} HistoryKeeps(h: History, bucketId: string, now: int)
    requires NotBefore(h, bucketId, now)
    requires IdsNameEvents(Uploaded(h, bucketId)) && ExpireInOrder(Uploaded(h, bucketId))
    ensures bucketId !in Docs(h) ==> Uploaded(h, bucketId) == {}
    ensures bucketId in Docs(h) ==> Keeps(Docs(h)[bucketId].events, Uploaded(h, bucketId), now)
  {
    if h != [] {
      var n := |h| - 1;
      HistoryKeeps(h[..n], bucketId, now);
      if h[n].name == bucketId {
        if bucketId in Docs(h[..n]) {
          DecideKeeps(h[n], Docs(h[..n])[bucketId], Uploaded(h[..n], bucketId), now);
        } else if h[n].op.Put? {
          UploadKeeps([], {}, now, Store(h[n].op.event, h[n].op.now));
        }
      }
    }
  }

  // ---------- when an unexpired event is missing ----------

  /** An event held is not before all events held. */
  lemma FullOfLaterMisses(events: seq<StoredEvent>, e: Event)
    requires FullOfLater(events, e)
    ensures !Holds(events, e)
  {
    TextTrichotomy(e.eventId, e.eventId);
  }

  /** An upload drops an event only when it leaves the bucket full of later ones. */
  lemma UploadMissing(events: seq<StoredEvent>, all: set<Event>, stored: StoredEvent, e: Event)
    requires Shape(events, all)
    requires forall entry :: entry in events ==> entry.event.eventId != stored.event.eventId
    ensures
      var after := WithEvent(events, stored);
      Holds(after, e) <==> (Holds(events, e) || e == stored.event) && !FullOfLater(after, e)
  {
    var sorted, after := Sort(events + [stored], OldestFirst), WithEvent(events, stored);
    SortedUpload(events, all, stored);
    SameElementsHold(events + [stored], sorted, e);
    SameElementsHold(sorted, events + [stored], e);
    SameElementsHold(events, events + [stored], e);
    SameElementsHold(after, sorted, e);
    assert (events + [stored])[|events|] == stored;
    if Holds(sorted, e) {
      CappedHolds(sorted, e);
    }
    if FullOfLater(after, e) {
      FullOfLaterMisses(after, e);
    }
  }

  /** So does any operation, for an event that has not expired. */
  lemma DecideMissing(request: Request<ActivityOp>, bucket: Bucket, all: set<Event>, now: int, e: Event)
    requires Shape(bucket.events, all) && request.op.now <= now < e.expiresAt
    requires Decide(request, Some(bucket)).answer.Stored? ==> IdsNameEvents(all + {request.op.event})
    ensures
      var d := Decide(request, Some(bucket));
      var after := if d.Write? then d.value.events else bucket.events;
      var held := Holds(bucket.events, e) || (d.answer.Stored? && request.op.event == e);
      && Shape(after, if d.answer.Stored? then all + {request.op.event} else all)
      && (Holds(after, e) <==> held && !FullOfLater(after, e))
  {
    var d := Decide(request, Some(bucket));
    var after := if d.Write? then d.value.events else bucket.events;
    if FullOfLater(after, e) {
      FullOfLaterMisses(after, e);
    }
    if bucket.authHash == request.op.tokenHash {
      var at := request.op.now;
      var kept := Pruned(bucket.events, at);
      PruneShape(bucket.events, all, at);
      PrunedHolds(bucket.events, at, e);
      match request.op {
        case Put(_, event, _) =>
          var existing := FindEvent(kept, event.eventId);
          if existing.None? {
            SortedUpload(kept, all, Store(event, at));
            UploadMissing(kept, all, Store(event, at), e);
          } else {
            var i :| 0 <= i < |kept| && kept[i] == existing.value;
            assert all + {event} == all && kept[i].event == event;
          }
        case List(_, _, _, _) =>
          OldestFirstOrder();
          SortOfStrict(kept, OldestFirst);
          FilterAll(bucket.events, (entry: StoredEvent) => entry.event.expiresAt > at);
      }
    }
  }

  /** Operation k is an accepted upload of the event to the bucket. */
  ghost predicate UploadedAt(h: History, bucketId: string, e: Event, k: nat)
    requires k < |h|
  {
    h[k].name == bucketId && h[k].op.Put? && h[k].op.event == e && LockedDecision(Decide, h, k).answer.Stored?
  }

  /** Operation j left the bucket full of events later than this one, which was not uploaded since. */
  ghost predicate CrowdedOut(h: History, bucketId: string, e: Event, j: nat)
    requires j < |h|
  {
    && bucketId in Docs(h[..j + 1]) && FullOfLater(Docs(h[..j + 1])[bucketId].events, e)
    && forall k :: j < k < |h| ==> !UploadedAt(h, bucketId, e, k)
  }

  /** After one more operation an event is crowded out by it, or was before and is not uploaded by it. */
  lemma CrowdedOutNext(h: History, bucketId: string, e: Event)
    requires h != []
    ensures
      var n := |h| - 1;
      (exists j :: 0 <= j < |h| && CrowdedOut(h, bucketId, e, j)) <==>
      || (bucketId in Docs(h) && FullOfLater(Docs(h)[bucketId].events, e))
      || (!UploadedAt(h, bucketId, e, n) && exists j :: 0 <= j < n && CrowdedOut(h[..n], bucketId, e, j))
  {
    var n := |h| - 1;
    var g := h[..n];
    assert h[..n + 1] == h;
    forall j | 0 <= j < n
      ensures CrowdedOut(h, bucketId, e, j) <==> CrowdedOut(g, bucketId, e, j) && !UploadedAt(h, bucketId, e, n)
    {
      assert g[..j + 1] == h[..j + 1];
      forall k | j < k < n
        ensures UploadedAt(h, bucketId, e, k) <==> UploadedAt(g, bucketId, e, k)
      {
        assert g[..k] == h[..k];
      }
    }
    if bucketId in Docs(h) && FullOfLater(Docs(h)[bucketId].events, e) {
      assert CrowdedOut(h, bucketId, e, n);
    }
    if !UploadedAt(h, bucketId, e, n) && exists j :: 0 <= j < n && CrowdedOut(g, bucketId, e, j) {
      var j :| 0 <= j < n && CrowdedOut(g, bucketId, e, j);
      assert CrowdedOut(h, bucketId, e, j);
    }
  }

  /** The bucket of a history: sorted, capped and of accepted events, whatever their times to live. */
  lemma {:induction false} HistoryShape(h: History, bucketId: string)
    requires IdsNameEvents(Uploaded(h, bucketId))
    ensures bucketId !in Docs(h) ==> Uploaded(h, bucketId) == {}
    ensures bucketId in Docs(h) ==> Shape(Docs(h)[bucketId].events, Uploaded(h, bucketId))
  {
    if h != [] {
      var n := |h| - 1;
      HistoryShape(h[..n], bucketId);
      if h[n].name == bucketId {
        if bucketId in Docs(h[..n]) {
          DecideShape(h[n], Docs(h[..n])[bucketId], Uploaded(h[..n], bucketId));
        } else if h[n].op.Put? {
          SortedUpload([], {}, Store(h[n].op.event, h[n].op.now));
        }
      }
    }
  }

  lemma DecideShape(request: Request<ActivityOp>, bucket: Bucket, all: set<Event>)
    requires Shape(bucket.events, all)
    requires Decide(request, Some(bucket)).answer.Stored? ==> IdsNameEvents(all + {request.op.event})
    ensures
      var d := Decide(request, Some(bucket));
      var after := if d.Write? then d.value.events else bucket.events;
      Shape(after, if d.answer.Stored? then all + {request.op.event} else all)
  {
    if bucket.authHash == request.op.tokenHash {
      var kept := Pruned(bucket.events, request.op.now);
      PruneShape(bucket.events, all, request.op.now);
      match request.op {
        case Put(_, event, at) =>
          if FindEvent(kept, event.eventId).None? {
            SortedUpload(kept, all, Store(event, at));
          } else {
            var i :| 0 <= i < |kept| && kept[i] == FindEvent(kept, event.eventId).value;
            assert all + {event} == all;
          }
        case List(_, _, _, _) =>
          OldestFirstOrder();
          SortOfStrict(kept, OldestFirst);
          FilterAll(bucket.events, (entry: StoredEvent) => entry.event.expiresAt > request.op.now);
      }
    }
  }

  /**
    Whatever the times to live: an accepted event that has not expired is missing from the bucket iff
    some operation left the bucket full of 2000 later events, and the event was not uploaded since.
  */
  lemma {:induction false} UnexpiredMissingIff(h: History, bucketId: string, now: int, e: Event)
    requires NotBefore(h, bucketId, now) && IdsNameEvents(Uploaded(h, bucketId))
    requires e in Uploaded(h, bucketId) && e.expiresAt > now
    ensures bucketId in Docs(h)
    ensures !Holds(Docs(h)[bucketId].events, e) <==> exists j :: 0 <= j < |h| && CrowdedOut(h, bucketId, e, j)
  {
    var n := |h| - 1;
    var g := h[..n];
    HistoryShape(g, bucketId);
    CrowdedOutNext(h, bucketId, e);
    if e in Uploaded(g, bucketId) {
      UnexpiredMissingIff(g, bucketId, now, e);
    }
    if h[n].name != bucketId {
      if FullOfLater(Docs(h)[bucketId].events, e) {
        FullOfLaterMisses(Docs(h)[bucketId].events, e);
      }
    } else if bucketId in Docs(g) {
      DecideMissing(h[n], Docs(g)[bucketId], Uploaded(g, bucketId), now, e);
    } else {
      UploadMissing([], {}, Store(h[n].op.event, h[n].op.now), e);
    }
  }

  /**
    After any run of uploads and lists, and at any time no earlier than all of them, the unexpired
    events of a bucket are sorted and at most 2000, and lack just the ones crowded out; so when events
    expire in the order they were created they are exactly the newest 2000, by (created_at, event_id),
    of all accepted events unexpired at that time.
  */
  lemma BucketHoldsNewest(h: History, bucketId: string, now: int)
    requires NotBefore(h, bucketId, now) && IdsNameEvents(Uploaded(h, bucketId))
    requires bucketId in Docs(h)
    ensures Shape(Pruned(Docs(h)[bucketId].events, now), Unexpired(Uploaded(h, bucketId), now))
    ensures forall e :: e in Unexpired(Uploaded(h, bucketId), now) ==>
              (!Holds(Pruned(Docs(h)[bucketId].events, now), e)
               <==> exists j :: 0 <= j < |h| && CrowdedOut(h, bucketId, e, j))
    ensures ExpireInOrder(Uploaded(h, bucketId)) ==>
              IsNewest(Pruned(Docs(h)[bucketId].events, now), MAX_ACTIVITY_EVENTS,
                       Unexpired(Uploaded(h, bucketId), now))
  {
    var events, all := Docs(h)[bucketId].events, Uploaded(h, bucketId);
    HistoryShape(h, bucketId);
    PruneShape(events, all, now);
    forall e | e in Unexpired(all, now)
      ensures !Holds(Pruned(events, now), e) <==> exists j :: 0 <= j < |h| && CrowdedOut(h, bucketId, e, j)
    {
      UnexpiredMissingIff(h, bucketId, now, e);
      PrunedHolds(events, now, e);
    }
    if ExpireInOrder(all) {
      HistoryKeeps(h, bucketId, now);
      PruneKeeps(events, all, now, now);
      KeepsNewest(Pruned(events, now), all, now);
    }
  }

  /**
    With a clock that did not run backwards, an authorized list leaves exactly those events in the
    stored bucket, and answers with a page of them.
  */
  lemma ListLeavesNewest(h: History, bucketId: string)
    requires h != [] && h[|h| - 1].name == bucketId && h[|h| - 1].op.List?
    requires LockedDecision(Decide, h, |h| - 1).answer.Found?
    requires NotBefore(h, bucketId, h[|h| - 1].op.now) && IdsNameEvents(Uploaded(h, bucketId))
    ensures bucketId in Docs(h[..|h| - 1]) && bucketId in Docs(h)
    ensures Docs(h)[bucketId].events == Pruned(Docs(h[..|h| - 1])[bucketId].events, h[|h| - 1].op.now)
    ensures ExpireInOrder(Uploaded(h, bucketId)) ==>
              IsNewest(Docs(h)[bucketId].events, MAX_ACTIVITY_EVENTS,
                       Unexpired(Uploaded(h, bucketId), h[|h| - 1].op.now))
    ensures
      var op := h[|h| - 1].op;
      LockedDecision(Decide, h, |h| - 1).answer == Found(PageOf(Docs(h)[bucketId].events, op.limit, op.cursor))
  {
    var n := |h| - 1;
    var g, now := h[..n], h[n].op.now;
    assert Uploaded(h, bucketId) == Uploaded(g, bucketId);
    BucketHoldsNewest(g, bucketId, now);
    var events := Docs(g)[bucketId].events;
    OldestFirstOrder();
    SortOfStrict(Pruned(events, now), OldestFirst);
    FilterAll(events, (entry: StoredEvent) => entry.event.expiresAt > now);
  }
}
