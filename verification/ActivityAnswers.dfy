/**
  What every request on an activity bucket does and is answered, by the fields of events: which events
  an upload leaves, what a page lists, and that every event listed was uploaded as it is.
*/
module ActivityAnswers {
  import opened Wrappers
  import opened Keys
  import opened Sorting
  import opened CommitProtocol
  import opened ActivityFeed
  import Utf8

  /** The stored event is what the upload carried, described as the relay describes it. */
  predicate StoredBy(entry: StoredEvent, upload: ActivityOp) {
    && upload.Put?
    && entry.event == upload.event && entry.storedAt == upload.now
    && entry.sizeBytes == |Utf8.Encode(upload.event.json)|
    && entry.contentSha256 == "sha256:" + upload.event.sha256
  }

  /** Earlier by the time of creation, and at equal times by the id. */
  predicate Earlier(a: Event, b: Event) {
    a.createdAt < b.createdAt || (a.createdAt == b.createdAt && TextLess(a.eventId, b.eventId))
  }

  /** Oldest first, each id once, at most 2000. */
  ghost predicate WellKept(events: seq<StoredEvent>) {
    && |events| <= 2000
    && (forall i, j :: 0 <= i < j < |events| ==> Earlier(events[i].event, events[j].event))
    && (forall i, j :: 0 <= i < j < |events| ==> events[i].event.eventId != events[j].event.eventId)
  }

  /** The events that have not expired, all of them and in their order. */
  ghost predicate OnlyUnexpired(after: seq<StoredEvent>, before: seq<StoredEvent>, now: int) {
    && (forall x :: x in after <==> x in before && x.event.expiresAt > now)
    && (forall i, j :: 0 <= i < j < |after| ==> Earlier(after[i].event, after[j].event))
  }

  /** Every event is there, unless there are 2000 that are all later than it. */
  ghost predicate UploadLeaves(after: seq<StoredEvent>, before: seq<StoredEvent>, stored: StoredEvent, now: int) {
    && WellKept(after)
    && (forall x :: x in after ==> x == stored || (x in before && x.event.expiresAt > now))
    && (forall x :: x == stored || (x in before && x.event.expiresAt > now) ==>
          x in after || (|after| == 2000 && forall y :: y in after ==> Earlier(x.event, y.event)))
  }

  /**
    An upload. An unexpired event with its id is answered as it is stored; otherwise the event is stored
    as uploaded, and only the oldest beyond 2000 go.
  */
  ghost predicate PutByFields(bucket: Bucket, op: ActivityOp, d: Decision<Bucket, ActivityStatus>)
    requires op.Put?
  {
    && d.Write? && d.answer.Stored?
    && var stored, after := d.answer.stored, d.value;
       if exists x :: x in bucket.events && x.event.expiresAt > op.now && x.event.eventId == op.event.eventId then
         && stored in bucket.events && stored.event.expiresAt > op.now && stored.event.eventId == op.event.eventId
         && after == bucket.(events := after.events) && OnlyUnexpired(after.events, bucket.events, op.now)
       else
         && StoredBy(stored, op)
         && after == bucket.(events := after.events, updatedAt := op.now)
         && UploadLeaves(after.events, bucket.events, stored, op.now)
  }

  /** An unexpired event of the bucket, after the cursor when there is one. */
  predicate Due(x: StoredEvent, events: seq<StoredEvent>, cursor: Option<Key>, now: int) {
    && x in events && x.event.expiresAt > now
    && (cursor.Some? ==> cursor.value.time < x.event.createdAt
                         || (cursor.value.time == x.event.createdAt && TextLess(cursor.value.id, x.event.eventId)))
  }

  /**
    A page lists the first `limit` events that are due, oldest first. It says that there are more iff one
    that is due is not on it, and then gives the time and id of its last event to go on from.
  */
  ghost predicate PageByFields(page: Page, events: seq<StoredEvent>, limit: nat, cursor: Option<Key>, now: int) {
    && |page.events| <= limit
    && (forall i, j :: 0 <= i < j < |page.events| ==> Earlier(page.events[i].event, page.events[j].event))
    && (forall x :: x in page.events ==> Due(x, events, cursor, now))
    && (forall x :: Due(x, events, cursor, now) && x !in page.events ==>
          |page.events| == limit && forall y :: y in page.events ==> Earlier(y.event, x.event))
    && (page.hasMore <==> exists x :: Due(x, events, cursor, now) && x !in page.events)
    && page.nextCursor == (if page.hasMore && page.events != [] then
                             var last := page.events[|page.events| - 1].event;
                             Some(Key(last.createdAt, last.eventId))
                           else None)
  }

  /** A list: a page of the unexpired events, and a bucket that is written iff some had expired. */
  ghost predicate ListByFields(bucket: Bucket, op: ActivityOp, d: Decision<Bucket, ActivityStatus>)
    requires op.List?
  {
    && d.answer.Found? && PageByFields(d.answer.page, bucket.events, op.limit, op.cursor, op.now)
    && (d.Write? <==> exists x :: x in bucket.events && x.event.expiresAt <= op.now)
    && (d.Write? ==> d.value == bucket.(events := d.value.events)
                     && OnlyUnexpired(d.value.events, bucket.events, op.now))
  }

  // ---------- one request ----------

  lemma PrunedByFields(events: seq<StoredEvent>, now: int)
    requires WellKept(events)
    ensures OnlyUnexpired(Pruned(events, now), events, now) && WellKept(Pruned(events, now))
  {
    var alive := (entry: StoredEvent) => entry.event.expiresAt > now;
    FilterElements(events, alive);
    FilterStrict(events, alive, OldestFirst);
    FilterStrict(events, alive, (a: StoredEvent, b: StoredEvent) => a.event.eventId != b.event.eventId);
    var kept := Pruned(events, now);
    forall i, j | 0 <= i < j < |kept|
      ensures Earlier(kept[i].event, kept[j].event) && kept[i].event.eventId != kept[j].event.eventId
    {
      assert OldestFirst(kept[i], kept[j]);
    }
  }

  lemma WellKeptShape(events: seq<StoredEvent>)
    requires WellKept(events)
    ensures Shape(events, Members(Events(events)))
  {
    forall i, j | 0 <= i < j < |events|
      ensures OldestFirst(events[i], events[j])
    {
      assert Earlier(events[i].event, events[j].event);
    }
    forall i | 0 <= i < |events|
      ensures events[i].event in Members(Events(events))
    {
      assert Events(events)[i] == events[i].event;
    }
  }

  /** The sorted list with one more event, before and after the oldest beyond 2000 go. */
  lemma CutByFields(sorted: seq<StoredEvent>)
    requires Strict(sorted, OldestFirst)
    requires forall i, j :: 0 <= i < j < |sorted| ==> sorted[i].event.eventId != sorted[j].event.eventId
    ensures WellKept(Capped(sorted))
    ensures forall x :: x in Capped(sorted) ==> x in sorted
    ensures forall x :: x in sorted ==>
              x in Capped(sorted)
              || (|Capped(sorted)| == 2000 && forall y :: y in Capped(sorted) ==> Earlier(x.event, y.event))
  {
    var after, k := Capped(sorted), if |sorted| > 2000 then |sorted| - 2000 else 0;
    assert after == sorted[k..];
    forall i, j | 0 <= i < j < |after|
      ensures Earlier(after[i].event, after[j].event)
    {
      assert OldestFirst(sorted[k + i], sorted[k + j]);
    }
    forall x | x in sorted
      ensures x in after || (|after| == 2000 && forall y :: y in after ==> Earlier(x.event, y.event))
    {
      var i :| 0 <= i < |sorted| && sorted[i] == x;
      if i >= k {
        assert after[i - k] == x;
      } else {
        forall y | y in after
          ensures Earlier(x.event, y.event)
        {
          var j :| 0 <= j < |after| && after[j] == y;
          assert OldestFirst(sorted[i], sorted[k + j]);
        }
      }
    }
  }

  lemma UploadByFields(kept: seq<StoredEvent>, before: seq<StoredEvent>, stored: StoredEvent, now: int)
    requires WellKept(kept) && OnlyUnexpired(kept, before, now)
    requires forall x :: x in kept ==> x.event.eventId != stored.event.eventId
    ensures UploadLeaves(WithEvent(kept, stored), before, stored, now)
  {
    WellKeptShape(kept);
    SortedUpload(kept, Members(Events(kept)), stored);
    var sorted := Sort(kept + [stored], OldestFirst);
    UploadedIdsDiffer(kept, stored);
    CutByFields(sorted);
    forall x | x == stored || (x in before && x.event.expiresAt > now)
      ensures x in sorted
    {
      assert x in kept + [stored];
    }
  }

  lemma UploadedIdsDiffer(kept: seq<StoredEvent>, stored: StoredEvent)
    requires WellKept(kept) && forall x :: x in kept ==> x.event.eventId != stored.event.eventId
    ensures
      var sorted := Sort(kept + [stored], OldestFirst);
      forall i, j :: 0 <= i < j < |sorted| ==> sorted[i].event.eventId != sorted[j].event.eventId
  {
    var all, sorted := kept + [stored], Sort(kept + [stored], OldestFirst);
    WellKeptShape(kept);
    SortedUpload(kept, Members(Events(kept)), stored);
    forall i, j | 0 <= i < j < |sorted|
      ensures sorted[i].event.eventId != sorted[j].event.eventId
    {
      assert OldestFirst(sorted[i], sorted[j]);
      TextTrichotomy(sorted[i].event.eventId, sorted[i].event.eventId);
      assert sorted[i] in all && sorted[j] in all && sorted[i] != sorted[j];
    }
  }

  /** The part of a sorted list behind a cursor. */
  lemma {:induction false} DueTail(events: seq<StoredEvent>, cursor: Key)
    requires Strict(events, OldestFirst)
    ensures forall i :: 0 <= i < |events| ==> (i >= FirstAfter(events, cursor) <==> IsAfter(events[i], cursor))
  {
    if events != [] {
      KeyOrder();
      DueTail(events[1..], cursor);
      forall i | 0 <= i < |events|
        ensures i >= FirstAfter(events, cursor) <==> IsAfter(events[i], cursor)
      {
        if i > 0 {
          assert events[1..][i - 1] == events[i];
          assert OldestFirst(events[0], events[i]);
        }
      }
    }
  }

  lemma PageMeaning(kept: seq<StoredEvent>, events: seq<StoredEvent>, limit: nat, cursor: Option<Key>, now: int)
    requires WellKept(kept) && OnlyUnexpired(kept, events, now)
    ensures PageByFields(PageOf(kept, limit, cursor), events, limit, cursor, now)
  {
    WellKeptShape(kept);
    if cursor.Some? {
      DueTail(kept, cursor.value);
    }
    var start := if cursor.Some? then FirstAfter(kept, cursor.value) else 0;
    var page, tail := PageOf(kept, limit, cursor), kept[start..];
    forall x
      ensures Due(x, events, cursor, now) <==> x in tail
    {
      TailIsDue(kept, events, cursor, now, start, x);
    }
    PageOfTail(page, tail, limit);
  }

  lemma TailIsDue(kept: seq<StoredEvent>, events: seq<StoredEvent>, cursor: Option<Key>, now: int, start: nat,
                  x: StoredEvent)
    requires OnlyUnexpired(kept, events, now) && start <= |kept|
    requires match cursor
             case None => start == 0
             case Some(c) => forall i :: 0 <= i < |kept| ==> (i >= start <==> IsAfter(kept[i], c))
    ensures Due(x, events, cursor, now) <==> x in kept[start..]
  {
    if Due(x, events, cursor, now) {
      var i :| 0 <= i < |kept| && kept[i] == x;
      assert kept[start..][i - start] == x;
    }
    if x in kept[start..] {
      var i :| 0 <= i < |kept[start..]| && kept[start..][i] == x;
      assert kept[start + i] == x;
    }
  }

  /** The first `limit` of a strict list are on the page, and the others are later than all of them. */
  lemma PageOfTail(page: Page, tail: seq<StoredEvent>, limit: nat)
    requires forall i, j :: 0 <= i < j < |tail| ==> Earlier(tail[i].event, tail[j].event)
    requires page.events == (if |tail| > limit then tail[..limit] else tail)
    ensures forall i, j :: 0 <= i < j < |page.events| ==> Earlier(page.events[i].event, page.events[j].event)
    ensures forall x :: x in page.events ==> x in tail
    ensures forall x :: x in tail && x !in page.events ==>
              |page.events| == limit && forall y :: y in page.events ==> Earlier(y.event, x.event)
    ensures |tail| > limit <==> exists x :: x in tail && x !in page.events
  {
    if |tail| > limit {
      forall i | 0 <= i < limit
        ensures page.events[i] != tail[limit]
      {
        TextTrichotomy(tail[i].event.eventId, tail[i].event.eventId);
        assert Earlier(tail[i].event, tail[limit].event);
      }
      assert tail[limit] in tail && tail[limit] !in page.events;
    }
    assert forall j :: 0 <= j < |page.events| ==> page.events[j] == tail[j] && tail[j] in page.events;
    forall x, y | x in tail && x !in page.events && y in page.events
      ensures Earlier(y.event, x.event)
    {
      var i :| 0 <= i < |page.events| && page.events[i] == y;
      var j :| 0 <= j < |tail| && tail[j] == x;
      assert j >= |page.events|;
    }
  }

  lemma PutMeaning(request: Request<ActivityOp>, bucket: Bucket)
    requires request.op.Put? && WellKept(bucket.events) && bucket.authHash == request.op.tokenHash
    ensures PutByFields(bucket, request.op, Decide(request, Some(bucket)))
    ensures WellKept(Decide(request, Some(bucket)).value.events)
  {
    var op := request.op;
    var kept := Pruned(bucket.events, op.now);
    PrunedByFields(bucket.events, op.now);
    var existing := FindEvent(kept, op.event.eventId);
    if existing.None? {
      UploadByFields(kept, bucket.events, Store(op.event, op.now), op.now);
    } else {
      assert existing.value in kept;
    }
  }

  lemma ListMeaning(request: Request<ActivityOp>, bucket: Bucket)
    requires request.op.List? && WellKept(bucket.events) && bucket.authHash == request.op.tokenHash
    ensures ListByFields(bucket, request.op, Decide(request, Some(bucket)))
    ensures Decide(request, Some(bucket)).Write? ==> WellKept(Decide(request, Some(bucket)).value.events)
  {
    var op := request.op;
    var kept := Pruned(bucket.events, op.now);
    PrunedByFields(bucket.events, op.now);
    WellKeptShape(kept);
    OldestFirstOrder();
    SortOfStrict(kept, OldestFirst);
    FilterAll(bucket.events, (entry: StoredEvent) => entry.event.expiresAt > op.now);
    PageMeaning(kept, bucket.events, op.limit, op.cursor, op.now);
  }

  // ---------- every history ----------

  /** Position `first` is the first upload to the bucket; its token is the bucket's. */
  ghost predicate FirstUpload(h: History, id: string, first: int) {
    && 0 <= first < |h| && h[first].name == id && h[first].op.Put?
    && forall i :: 0 <= i < first && h[i].name == id ==> !h[i].op.Put?
  }

  /** An upload to the bucket with its token carried just this event, and stored it. */
  ghost predicate WasUploaded(x: StoredEvent, h: History, id: string, tokenHash: string) {
    exists j :: 0 <= j < |h| && h[j].name == id && h[j].op.tokenHash == tokenHash && StoredBy(x, h[j].op)
  }

  lemma {:induction false} NoBucket(h: History, id: string)
    requires forall i :: 0 <= i < |h| && h[i].name == id ==> !h[i].op.Put?
    ensures id !in Docs(h)
  {
    if h != [] {
      NoBucket(h[..|h| - 1], id);
    }
  }

  /** A bucket after any history: its name, token and creation, and events that were all uploaded to it. */
  ghost predicate BucketByHistory(bucket: Bucket, h: History, id: string, first: nat)
    requires first < |h| && h[first].op.Put?
  {
    && bucket.bucketId == id && bucket.authHash == h[first].op.tokenHash && bucket.createdAt == h[first].op.now
    && WellKept(bucket.events)
    && forall x :: x in bucket.events ==> WasUploaded(x, h, id, h[first].op.tokenHash)
  }

  lemma UploadedLonger(x: StoredEvent, h: History, id: string, tokenHash: string)
    requires h != [] && WasUploaded(x, h[..|h| - 1], id, tokenHash)
    ensures WasUploaded(x, h, id, tokenHash)
  {
    var g := h[..|h| - 1];
    var j :| 0 <= j < |g| && g[j].name == id && g[j].op.tokenHash == tokenHash && StoredBy(x, g[j].op);
    assert h[j] == g[j];
  }

  lemma OneEvent(stored: StoredEvent)
    ensures WithEvent([], stored) == [stored]
  {
    assert [] + [stored] == [stored];
    assert Sort([stored][1..], OldestFirst) == [];
  }

  lemma CreatedByHistory(h: History, id: string)
    requires h != [] && FirstUpload(h, id, |h| - 1)
    ensures id in Docs(h) && BucketByHistory(Docs(h)[id], h, id, |h| - 1)
    ensures LockedDecision(Decide, h, |h| - 1).Write? && LockedDecision(Decide, h, |h| - 1).answer.Stored?
    ensures StoredBy(LockedDecision(Decide, h, |h| - 1).answer.stored, h[|h| - 1].op)
    ensures Docs(h)[id].events == [LockedDecision(Decide, h, |h| - 1).answer.stored]
    ensures Docs(h)[id].updatedAt == h[|h| - 1].op.now
  {
    var n := |h| - 1;
    NoBucket(h[..n], id);
    var stored := Store(h[n].op.event, h[n].op.now);
    OneEvent(stored);
    assert StoredBy(stored, h[n].op);
  }

  /** One request on the bucket, by the fields of what it finds. */
  ghost predicate AnswersOwner(bucket: Bucket, op: ActivityOp, d: Decision<Bucket, ActivityStatus>) {
    match op
    case Put(_, _, _) => PutByFields(bucket, op, d)
    case List(_, _, _, _) => ListByFields(bucket, op, d)
  }

  lemma OwnerMeaning(request: Request<ActivityOp>, bucket: Bucket)
    requires WellKept(bucket.events) && bucket.authHash == request.op.tokenHash
    ensures AnswersOwner(bucket, request.op, Decide(request, Some(bucket)))
    ensures Decide(request, Some(bucket)).Write? ==>
      var after := Decide(request, Some(bucket)).value;
      && WellKept(after.events)
      && after.bucketId == bucket.bucketId && after.authHash == bucket.authHash && after.createdAt == bucket.createdAt
      && forall x :: x in after.events ==> x in bucket.events || StoredBy(x, request.op)
  {
    if request.op.Put? {
      PutMeaning(request, bucket);
    } else {
      ListMeaning(request, bucket);
    }
  }

  lemma {:induction false} BucketFromHistory(h: History, id: string, first: nat)
    requires FirstUpload(h, id, first)
    ensures id in Docs(h) && BucketByHistory(Docs(h)[id], h, id, first)
  {
    var n := |h| - 1;
    if first == n {
      CreatedByHistory(h, id);
    } else {
      var g := h[..n];
      assert FirstUpload(g, id, first) && g[first] == h[first];
      BucketFromHistory(g, id, first);
      var before := Docs(g)[id];
      if h[n].name == id && h[n].op.tokenHash == before.authHash {
        OwnerMeaning(h[n], before);
      } else {
        assert Docs(h)[id] == before;
      }
      forall x | x in Docs(h)[id].events
        ensures WasUploaded(x, h, id, h[first].op.tokenHash)
      {
        if x in before.events {
          UploadedLonger(x, h, id, h[first].op.tokenHash);
        } else {
          assert StoredBy(x, h[n].op);
        }
      }
    }
  }

  /** Nobody has uploaded to the bucket: there is nothing to list, and an upload creates it. */
  lemma AnswerOfNoBucket(h: History, i: nat)
    requires i < |h| && forall j :: 0 <= j < i && h[j].name == h[i].name ==> !h[j].op.Put?
    ensures
      var d := LockedDecision(Decide, h, i);
      if h[i].op.Put? then d.Write? && d.answer.Stored? && StoredBy(d.answer.stored, h[i].op)
                           && d.value.events == [d.answer.stored] && d.value.updatedAt == h[i].op.now
      else d == Keep(NotFound)
  {
    NoBucket(h[..i], h[i].name);
    if h[i].op.Put? {
      OneEvent(Store(h[i].op.event, h[i].op.now));
    }
  }

  /**
    Every request after the first upload: another token than that upload's is refused and changes
    nothing; with it, an upload and a list do what the fields of the events say.
  */
  lemma AnswerByFields(h: History, i: nat, first: nat)
    requires i < |h| && first < i && FirstUpload(h, h[i].name, first)
    ensures h[i].name in Docs(h[..i])
    ensures
      var d := LockedDecision(Decide, h, i);
      && (d == Keep(Unauthorized) <==> h[i].op.tokenHash != h[first].op.tokenHash)
      && (h[i].op.tokenHash == h[first].op.tokenHash ==> AnswersOwner(Docs(h[..i])[h[i].name], h[i].op, d))
  {
    var id, g := h[i].name, h[..i];
    assert FirstUpload(g, id, first) && g[first] == h[first];
    BucketFromHistory(g, id, first);
    if h[i].op.tokenHash == h[first].op.tokenHash {
      OwnerMeaning(h[i], Docs(g)[id]);
    }
  }

  /** Whatever a reader is given was uploaded before, with the reader's token, as it is. */
  lemma ListedWasUploaded(h: History, i: nat, x: StoredEvent)
    requires i < |h| && h[i].op.List? && LockedDecision(Decide, h, i).answer.Found?
    requires x in LockedDecision(Decide, h, i).answer.page.events
    ensures WasUploaded(x, h[..i], h[i].name, h[i].op.tokenHash) && x.event.expiresAt > h[i].op.now
  {
    var g, id := h[..i], h[i].name;
    if forall j :: 0 <= j < i && h[j].name == id ==> !h[j].op.Put? {
      AnswerOfNoBucket(h, i);
    }
    var first := FirstUploadBefore(h, id, i);
    AnswerByFields(h, i, first);
    assert FirstUpload(g, id, first) && g[first] == h[first];
    BucketFromHistory(g, id, first);
    assert Due(x, Docs(g)[id].events, h[i].op.cursor, h[i].op.now);
  }

  lemma FirstUploadBefore(h: History, id: string, end: nat) returns (first: nat)
    requires end <= |h| && exists j :: 0 <= j < end && h[j].name == id && h[j].op.Put?
    ensures first < end && FirstUpload(h, id, first)
  {
    first := 0;
    while !(h[first].name == id && h[first].op.Put?)
      invariant first < end && forall i :: 0 <= i < first && h[i].name == id ==> !h[i].op.Put?
      invariant exists j :: first <= j < end && h[j].name == id && h[j].op.Put?
      decreases end - first
    {
      first := first + 1;
    }
  }
}
