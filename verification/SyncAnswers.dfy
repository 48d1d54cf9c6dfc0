/**
  One sync of a device by the fields of what it uploads and is given: the event it leaves in the bucket,
  the page it asks for, which snapshots it merges, what it counts, and when it stays as it was.
*/
module SyncAnswers {
  import opened Wrappers
  import opened Keys
  import opened CommitProtocol
  import opened MemoryMerge
  import opened ActivityFeed
  import opened ActivitySync
  import Answers = ActivityAnswers
  import Newest = NewestEntries

  /** The memory before each event of a page and at its end: another device's snapshot is merged, the own skipped. */
  ghost predicate MergedAlong(ms: seq<Memory>, memory: Memory, events: seq<StoredEvent>, deviceId: string,
                              read: Event -> Option<Memory>)
  {
    && |ms| == |events| + 1 && ms[0] == memory
    && forall i :: 0 <= i < |events| ==> StepOf(ms[i], ms[i + 1], events[i].event, deviceId, read)
  }

  ghost predicate StepOf(m: Memory, m': Memory, event: Event, deviceId: string, read: Event -> Option<Memory>) {
    if event.sourceDeviceId == deviceId then m' == m
    else read(event).Some? && m' == Merged(m, read(event).value)
  }

  /** The events of a page that the device itself uploaded. */
  ghost function OwnAmong(events: seq<StoredEvent>, deviceId: string): set<int> {
    set i | 0 <= i < |events| && events[i].event.sourceDeviceId == deviceId
  }

  /** The events of a page that changed the memory: its profile, a tag, a peer or an interaction. */
  ghost function ChangedAmong(ms: seq<Memory>, events: seq<StoredEvent>, deviceId: string): set<int>
    requires |ms| == |events| + 1
  {
    set i | 0 <= i < |events| && events[i].event.sourceDeviceId != deviceId && Newest.ContentChanged(ms[i], ms[i + 1])
  }

  /** Some event of another device cannot be read. */
  ghost predicate SomeUnreadable(events: seq<StoredEvent>, deviceId: string, read: Event -> Option<Memory>) {
    exists i :: 0 <= i < |events| && events[i].event.sourceDeviceId != deviceId && read(events[i].event).None?
  }

  ghost predicate Counted(p: Progress, ms: seq<Memory>, memory: Memory, events: seq<StoredEvent>, deviceId: string,
                          read: Event -> Option<Memory>)
  {
    && MergedAlong(ms, memory, events, deviceId, read)
    && p.memory == ms[|events|]
    && p.pulled == |events|
    && p.skippedSelf == |OwnAmong(events, deviceId)|
    && p.applied == |ChangedAmong(ms, events, deviceId)|
  }

  lemma OwnNext(events: seq<StoredEvent>, entry: StoredEvent, deviceId: string)
    ensures |OwnAmong(events + [entry], deviceId)|
            == |OwnAmong(events, deviceId)| + if entry.event.sourceDeviceId == deviceId then 1 else 0
  {
    var all, n := events + [entry], |events|;
    assert forall i :: 0 <= i < n ==> all[i] == events[i];
    assert all[n] == entry;
    assert OwnAmong(all, deviceId)
        == if entry.event.sourceDeviceId == deviceId then OwnAmong(events, deviceId) + {n}
           else OwnAmong(events, deviceId);
  }

  lemma ChangedNext(ms: seq<Memory>, m: Memory, events: seq<StoredEvent>, entry: StoredEvent, deviceId: string)
    requires |ms| == |events| + 1
    ensures |ChangedAmong(ms + [m], events + [entry], deviceId)|
            == |ChangedAmong(ms, events, deviceId)|
               + if entry.event.sourceDeviceId != deviceId && Newest.ContentChanged(ms[|events|], m) then 1 else 0
  {
    var all, more, n := events + [entry], ms + [m], |events|;
    assert forall i :: 0 <= i < n ==> all[i] == events[i];
    assert forall i :: 0 <= i <= n ==> more[i] == ms[i];
    assert all[n] == entry && more[n + 1] == m;
    assert ChangedAmong(more, all, deviceId)
        == if entry.event.sourceDeviceId != deviceId && Newest.ContentChanged(ms[n], m)
           then ChangedAmong(ms, events, deviceId) + {n} else ChangedAmong(ms, events, deviceId);
  }

  lemma AlongNext(ms: seq<Memory>, m: Memory, memory: Memory, events: seq<StoredEvent>, entry: StoredEvent,
                  deviceId: string, read: Event -> Option<Memory>)
    requires MergedAlong(ms, memory, events, deviceId, read) && StepOf(ms[|events|], m, entry.event, deviceId, read)
    ensures MergedAlong(ms + [m], memory, events + [entry], deviceId, read)
  {
    var all, more := events + [entry], ms + [m];
    forall i | 0 <= i < |all|
      ensures StepOf(more[i], more[i + 1], all[i].event, deviceId, read)
    {
      if i < |events| {
        assert all[i] == events[i] && more[i] == ms[i] && more[i + 1] == ms[i + 1];
      }
    }
  }

  lemma CountedNext(p: Progress, ms: seq<Memory>, memory: Memory, events: seq<StoredEvent>, entry: StoredEvent,
                    deviceId: string, read: Event -> Option<Memory>)
    requires Counted(p, ms, memory, events, deviceId, read)
    requires AbsorbNext(p, entry.event, deviceId, read).Some?
    ensures
      var q := AbsorbNext(p, entry.event, deviceId, read).value;
      Counted(q, ms + [q.memory], memory, events + [entry], deviceId, read)
  {
    var q := AbsorbNext(p, entry.event, deviceId, read).value;
    if entry.event.sourceDeviceId != deviceId {
      Newest.ChangeIsReported(p.memory, read(entry.event).value);
    }
    OwnNext(events, entry, deviceId);
    ChangedNext(ms, q.memory, events, entry, deviceId);
    AlongNext(ms, q.memory, memory, events, entry, deviceId, read);
  }

  lemma UnreadableNext(events: seq<StoredEvent>, entry: StoredEvent, deviceId: string, read: Event -> Option<Memory>)
    ensures SomeUnreadable(events + [entry], deviceId, read)
            <==> SomeUnreadable(events, deviceId, read)
                 || (entry.event.sourceDeviceId != deviceId && read(entry.event).None?)
  {
    var all := events + [entry];
    assert forall i :: 0 <= i < |events| ==> all[i] == events[i];
    assert all[|events|] == entry;
    if SomeUnreadable(events, deviceId, read) {
      var i :| 0 <= i < |events| && events[i].event.sourceDeviceId != deviceId && read(events[i].event).None?;
      assert all[i] == events[i];
    }
  }

  /** A page is merged event by event, and given up iff one of another device cannot be read. */
  lemma {:induction false} AbsorbByFields(memory: Memory, events: seq<StoredEvent>, deviceId: string,
                                          read: Event -> Option<Memory>) returns (ms: seq<Memory>)
    ensures Absorb(memory, events, deviceId, read).None? <==> SomeUnreadable(events, deviceId, read)
    ensures Absorb(memory, events, deviceId, read).Some? ==>
              Counted(Absorb(memory, events, deviceId, read).value, ms, memory, events, deviceId, read)
  {
    if events == [] {
      ms := [memory];
      assert OwnAmong(events, deviceId) == {} && ChangedAmong(ms, events, deviceId) == {};
    } else {
      var n := |events| - 1;
      ms := AbsorbByFields(memory, events[..n], deviceId, read);
      assert events == events[..n] + [events[n]];
      UnreadableNext(events[..n], events[n], deviceId, read);
      if Absorb(memory, events, deviceId, read).Some? {
        var p := Absorb(memory, events[..n], deviceId, read).value;
        CountedNext(p, ms, memory, events[..n], events[n], deviceId, read);
        ms := ms + [Absorb(memory, events, deviceId, read).value.memory];
      }
    }
  }

  /** The page a sync is given: of the bucket after the upload, with a limit between 1 and 500. */
  ghost predicate PageGiven(page: ActivityFeed.Page, uploaded: Bucket, s: Sync, cursor: Option<Key>) {
    Answers.PageByFields(page, uploaded.events, if s.limit == 0 then 1 else if s.limit > 500 then 500 else s.limit,
                         cursor, s.listedAt)
  }

  /** The upload of a sync: an event of the device, with its encrypted memory, put into the bucket. */
  ghost predicate Uploads(d: Decision<Bucket, ActivityStatus>, before: Option<Bucket>, account: Account, s: Sync,
                          memory: Memory)
  {
    var event := Event(s.eventId, account.deviceId, s.createdAt, s.expiresAt, s.encrypt(memory).json,
                       s.encrypt(memory).sha256);
    var op := ActivityOp.Put(account.tokenHash, event, s.uploadedAt);
    match before
    case None =>
      && d.Write? && d.answer.Stored? && Answers.StoredBy(d.answer.stored, op)
      && d.value.events == [d.answer.stored] && d.value.authHash == account.tokenHash
    case Some(bucket) => Answers.PutByFields(bucket, op, d)
  }

  lemma UploadMeaning(before: Option<Bucket>, account: Account, s: Sync, memory: Memory)
    requires before.Some? ==> Answers.WellKept(before.value.events) && before.value.authHash == account.tokenHash
    ensures
      var d := PutOf(before, account, s, memory);
      && d.Write? && d.answer.Stored? && d.value.authHash == account.tokenHash && Answers.WellKept(d.value.events)
      && Uploads(d, before, account, s, memory)
  {
    var event := EventOf(s, account.deviceId, memory);
    if before.Some? {
      var op := ActivityOp.Put(account.tokenHash, event, s.uploadedAt);
      Answers.PutMeaning(Request(account.bucketId, op), before.value);
    } else {
      Answers.OneEvent(Store(event, s.uploadedAt));
    }
  }

  /** The bucket a sync leaves: the one after its upload, without the events that had expired at its list. */
  ghost predicate Left(after: Bucket, uploaded: Bucket, s: Sync) {
    && after == uploaded.(events := after.events)
    && forall x :: x in after.events <==> x in uploaded.events && x.event.expiresAt > s.listedAt
  }

  lemma ListMeaning(uploaded: Bucket, account: Account, s: Sync, cursor: Option<Key>)
    requires Answers.WellKept(uploaded.events) && uploaded.authHash == account.tokenHash
    ensures
      var d := ListOf(uploaded, account, s, cursor);
      && d.answer.Found? && PageGiven(d.answer.page, uploaded, s, cursor)
      && Left(if d.Write? then d.value else uploaded, uploaded, s)
  {
    var op := ActivityOp.List(account.tokenHash, ActivitySync.Clamp(s.limit), cursor, s.listedAt);
    Answers.ListMeaning(Request(account.bucketId, op), uploaded);
  }

  /** What a sync that was given this page does to the device. */
  ghost predicate DeviceAfter(r: SyncResult, device: Device, page: ActivityFeed.Page, deviceId: string,
                              read: Event -> Option<Memory>, ms: seq<Memory>)
  {
    if SomeUnreadable(page.events, deviceId, read) then r.outcome == Unreadable && r.world.device == device
    else
      && MergedAlong(ms, device.memory, page.events, deviceId, read)
      && r.world.device == Device(ms[|page.events|], page.nextCursor)
      && r.outcome == Synced(|page.events|, |ChangedAmong(ms, page.events, deviceId)|,
                             |OwnAmong(page.events, deviceId)|)
  }

  /**
    One sync against a bucket that has the account's token, or is not there yet: the event uploaded, the
    page given behind the cursor, and the device after it.
  */
  lemma SyncByFields(world: World, account: Account, read: Event -> Option<Memory>, s: Sync)
      returns (put: Decision<Bucket, ActivityStatus>, page: ActivityFeed.Page, ms: seq<Memory>)
    requires account.bucketId in world.docs ==>
      var bucket := world.docs[account.bucketId];
      Answers.WellKept(bucket.events) && bucket.authHash == account.tokenHash
    ensures Uploads(put, Lookup(world.docs, account.bucketId), account, s, world.device.memory) && put.Write?
    ensures PageGiven(page, put.value, s, world.device.cursor)
    ensures
      var docs := SyncOnce(world, account, read, s).world.docs;
      && account.bucketId in docs && docs == world.docs[account.bucketId := docs[account.bucketId]]
      && Left(docs[account.bucketId], put.value, s)
    ensures DeviceAfter(SyncOnce(world, account, read, s), world.device, page, account.deviceId, read, ms)
  {
    var before, memory := Lookup(world.docs, account.bucketId), world.device.memory;
    put := PutOf(before, account, s, memory);
    var list := ListOf(put.value, account, s, world.device.cursor);
    UploadMeaning(before, account, s, memory);
    ListMeaning(put.value, account, s, world.device.cursor);
    page := list.answer.page;
    ms := AbsorbByFields(memory, page.events, account.deviceId, read);
    SyncInTwo(world, account, read, s, put, list);
  }

  function PutOf(before: Option<Bucket>, account: Account, s: Sync,
                 memory: Memory): Decision<Bucket, ActivityStatus>
  {
    var event := EventOf(s, account.deviceId, memory);
    Decide(Request(account.bucketId, ActivityOp.Put(account.tokenHash, event, s.uploadedAt)), before)
  }

  function ListOf(uploaded: Bucket, account: Account, s: Sync, cursor: Option<Key>): Decision<Bucket, ActivityStatus> {
    var op := ActivityOp.List(account.tokenHash, ActivitySync.Clamp(s.limit), cursor, s.listedAt);
    Decide(Request(account.bucketId, op), Some(uploaded))
  }

  /** A sync is its upload and its list, and then the merge of the page. */
  lemma SyncInTwo(world: World, account: Account, read: Event -> Option<Memory>, s: Sync,
                  put: Decision<Bucket, ActivityStatus>, list: Decision<Bucket, ActivityStatus>)
    requires put == PutOf(Lookup(world.docs, account.bucketId), account, s, world.device.memory)
    requires put.Write? && put.answer.Stored?
    requires list == ListOf(put.value, account, s, world.device.cursor) && list.answer.Found?
    ensures
      var r := SyncOnce(world, account, read, s);
      && r.world.docs == world.docs[account.bucketId := if list.Write? then list.value else put.value]
      && match Absorb(world.device.memory, list.answer.page.events, account.deviceId, read)
         case None => r.outcome == Unreadable && r.world.device == world.device
         case Some(p) =>
           r.outcome == Synced(p.pulled, p.applied, p.skippedSelf)
           && r.world.device == Device(p.memory, list.answer.page.nextCursor)
  {
    var uploaded := Applied(world.docs, account.bucketId, put);
    assert Lookup(uploaded, account.bucketId) == Some(put.value);
  }

  /** With another token than the bucket's the sync is refused, and nothing changes anywhere. */
  lemma SyncRefused(world: World, account: Account, read: Event -> Option<Memory>, s: Sync)
    requires account.bucketId in world.docs && world.docs[account.bucketId].authHash != account.tokenHash
    ensures SyncOnce(world, account, read, s) == SyncResult(world, Refused)
  {
  }
}
