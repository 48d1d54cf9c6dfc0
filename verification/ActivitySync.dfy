/**
  A device syncing with its activity bucket: it uploads an event, downloads one page from its cursor,
  and merges the snapshots of the other devices' events on that page. What repeated syncs lead to.
*/
module ActivitySync {
  import opened Wrappers
  import opened Keys
  import opened Sorting
  import opened CommitProtocol
  import opened MemoryMerge
  import opened ActivityFeed
  import Files = FileActivityStore

  /** The bucket of an identity, the hash of its token, and the device that syncs. */
  datatype Account = Account(bucketId: string, tokenHash: string, deviceId: string)

  /** What the device keeps between syncs. */
  datatype Device = Device(memory: Memory, cursor: Option<Key>)

  /** An event's JSON text, with the encrypted memory in it, and the digest of that text. */
  datatype Sealed = Sealed(json: string, sha256: string)

  /**
    One sync: the new id and the times of the event it uploads, how the memory is encrypted into it, the
    limit it was asked to use, and the times at the relay.
  */
  datatype Sync = Sync(
    eventId: string,
    createdAt: int,
    expiresAt: int,
    encrypt: Memory -> Sealed,
    limit: nat,
    uploadedAt: int,
    listedAt: int)

  /** The event with which a device uploads its memory. */
  function EventOf(s: Sync, deviceId: string, memory: Memory): Event {
    var text := s.encrypt(memory);
    Event(s.eventId, deviceId, s.createdAt, s.expiresAt, text.json, text.sha256)
  }

  function KeyOf(s: Sync): Key {
    Key(s.createdAt, s.eventId)
  }

  /** How the relay stores it. */
  function Uploading(s: Sync, deviceId: string, memory: Memory): StoredEvent {
    Store(EventOf(s, deviceId, memory), s.uploadedAt)
  }

  datatype Outcome =
    | Synced(pulled: nat, applied: nat, skippedSelf: nat)
    | Refused
    | Unreadable

  /** A memory while the events of a page are merged into it, and the counts so far. */
  datatype Progress = Progress(memory: Memory, pulled: nat, applied: nat, skippedSelf: nat)

  /** The relay's buckets and the device. */
  datatype World = World(docs: map<string, Bucket>, device: Device)

  datatype SyncResult = SyncResult(world: World, outcome: Outcome)

  function Clamp(limit: nat): nat {
    if limit < 1 then 1 else if limit > 500 then 500 else limit
  }

  /** One event of a page: the device's own is skipped, another's is decrypted and merged. */
  function AbsorbNext(p: Progress, event: Event, deviceId: string, read: Event -> Option<Memory>): Option<Progress> {
    if event.sourceDeviceId == deviceId then Some(p.(pulled := p.pulled + 1, skippedSelf := p.skippedSelf + 1))
    else
      match read(event)
      case None => None
      case Some(snapshot) =>
        Some(Progress(
          Merged(p.memory, snapshot),
          p.pulled + 1,
          p.applied + (if Changes(p.memory, snapshot) then 1 else 0),
          p.skippedSelf))
  }

  /** The events of a page in order; None when an event of another device cannot be decrypted. */
  function Absorb(memory: Memory, events: seq<StoredEvent>, deviceId: string,
                  read: Event -> Option<Memory>): Option<Progress>
  {
    if events == [] then Some(Progress(memory, 0, 0, 0))
    else
      var n := |events| - 1;
      match Absorb(memory, events[..n], deviceId, read)
      case None => None
      case Some(p) => AbsorbNext(p, events[n].event, deviceId, read)
  }

  /** One sync, against the relay's buckets. A failed sync leaves the device as it was. */
  function SyncOnce(world: World, account: Account, read: Event -> Option<Memory>, s: Sync): SyncResult {
    var b := account.bucketId;
    var event := EventOf(s, account.deviceId, world.device.memory);
    var put := Decide(Request(b, Put(account.tokenHash, event, s.uploadedAt)), Lookup(world.docs, b));
    var uploaded := Applied(world.docs, b, put);
    if !put.answer.Stored? then SyncResult(World(uploaded, world.device), Refused)
    else
      var list :=
        Decide(Request(b, List(account.tokenHash, Clamp(s.limit), world.device.cursor, s.listedAt)),
               Lookup(uploaded, b));
      var listed := Applied(uploaded, b, list);
      if !list.answer.Found? then SyncResult(World(listed, world.device), Refused)
      else
        match Absorb(world.device.memory, list.answer.page.events, account.deviceId, read)
        case None => SyncResult(World(listed, world.device), Unreadable)
        case Some(p) =>
          SyncResult(World(listed, Device(p.memory, list.answer.page.nextCursor)),
                     Synced(p.pulled, p.applied, p.skippedSelf))
  }

  /** A device with its saved memory file. */
  class SyncedDevice {
    const account: Account
    const read: Event -> Option<Memory>
    var memory: Memory
    var cursor: Option<Key>

    constructor (account: Account, read: Event -> Option<Memory>, memory: Memory)
      ensures this.account == account && this.read == read
      ensures State() == Device(memory, None)
    {
      this.account, this.read := account, read;
      this.memory, this.cursor := memory, None;
    }

    function State(): Device
      reads this
    {
      Device(memory, cursor)
    }

    method SyncActivity(store: Files.FileActivityStore, s: Sync) returns (outcome: Outcome)
      requires store.Valid()
      modifies this, store
      ensures store.Valid()
      ensures SyncResult(World(store.Contents(), State()), outcome)
              == SyncOnce(World(old(store.Contents()), old(State())), account, read, s)
    {
      var loaded := new MemoryFile(memory, cursor);
      var event := EventOf(s, account.deviceId, memory);
      var status := store.Put(account.bucketId, account.tokenHash, event, s.uploadedAt);
      if !status.Stored? {
        return Refused;
      }
      status := store.List(account.bucketId, account.tokenHash, Clamp(s.limit), loaded.activityCursor, s.listedAt);
      if !status.Found? {
        return Refused;
      }
      var merged := MergePage(loaded, status.page.events);
      if merged.None? {
        return Unreadable;
      }
      memory, cursor := loaded.State(), status.page.nextCursor;
      return Synced(merged.value.pulled, merged.value.applied, merged.value.skippedSelf);
    }

    /** The loop over the events of a page. */
    method MergePage(loaded: MemoryFile, events: seq<StoredEvent>) returns (merged: Option<Progress>)
      modifies loaded
      ensures merged == Absorb(old(loaded.State()), events, account.deviceId, read)
      ensures merged.Some? ==> loaded.State() == merged.value.memory
    {
      ghost var start := loaded.State();
      var pulled, applied, skippedSelf := 0, 0, 0;
      ghost var progress := Progress(start, 0, 0, 0);
      for i := 0 to |events|
        invariant progress == Progress(loaded.State(), pulled, applied, skippedSelf)
        invariant Absorb(start, events[..i], account.deviceId, read) == Some(progress)
      {
        AbsorbPrefix(start, events, i, account.deviceId, read);
        pulled := pulled + 1;
        if events[i].event.sourceDeviceId == account.deviceId {
          skippedSelf := skippedSelf + 1;
        } else {
          var changed := MergeEvent(loaded, events[i].event);
          if changed.None? {
            AbsorbStops(start, events, account.deviceId, read, i + 1);
            return None;
          }
          if changed.value {
            applied := applied + 1;
          }
        }
        progress := AbsorbNext(progress, events[i].event, account.deviceId, read).value;
      }
      assert events[..|events|] == events;
      return Some(Progress(loaded.State(), pulled, applied, skippedSelf));
    }

    /** Decrypting another device's event and merging its snapshot; None when it cannot be decrypted. */
    method MergeEvent(loaded: MemoryFile, event: Event) returns (changed: Option<bool>)
      modifies loaded
      ensures
        match read(event)
        case None => changed.None?
        case Some(snapshot) =>
          changed == Some(Changes(old(loaded.State()), snapshot))
          && loaded.State() == Merged(old(loaded.State()), snapshot)
    {
      var payload := read(event);
      if payload.None? {
        return None;
      }
      var flag := loaded.MergeSnapshot(payload.value);
      return Some(flag);
    }
  }

  lemma AbsorbOneMore(memory: Memory, events: seq<StoredEvent>, entry: StoredEvent, deviceId: string,
                      read: Event -> Option<Memory>)
    ensures Absorb(memory, events + [entry], deviceId, read)
            == match Absorb(memory, events, deviceId, read)
               case None => None
               case Some(p) => AbsorbNext(p, entry.event, deviceId, read)
  {
    var all := events + [entry];
    assert all[..|all| - 1] == events;
  }

  lemma AbsorbPrefix(memory: Memory, events: seq<StoredEvent>, i: nat, deviceId: string,
                     read: Event -> Option<Memory>)
    requires i < |events|
    ensures Absorb(memory, events[..i + 1], deviceId, read)
            == match Absorb(memory, events[..i], deviceId, read)
               case None => None
               case Some(p) => AbsorbNext(p, events[i].event, deviceId, read)
  {
    AbsorbOneMore(memory, events[..i], events[i], deviceId, read);
    assert events[..i + 1] == events[..i] + [events[i]];
  }

  /** After an event that cannot be read, the rest of the page does not matter. */
  lemma {:induction false} AbsorbStops(memory: Memory, events: seq<StoredEvent>, deviceId: string,
                                       read: Event -> Option<Memory>, k: nat)
    requires k <= |events| && Absorb(memory, events[..k], deviceId, read).None?
    ensures Absorb(memory, events, deviceId, read).None?
  {
    if k < |events| {
      var n := |events| - 1;
      assert events[..n][..k] == events[..k];
      AbsorbStops(memory, events[..n], deviceId, read, k);
    } else {
      assert events[..k] == events;
    }
  }

  // ---------- the events of the other devices ----------

  function Foreign(events: seq<StoredEvent>, deviceId: string): seq<StoredEvent> {
    Filter(events, (entry: StoredEvent) => entry.event.sourceDeviceId != deviceId)
  }

  function NotAfter(events: seq<StoredEvent>, cursor: Option<Key>): seq<StoredEvent> {
    if cursor.None? then [] else Filter(events, (entry: StoredEvent) => !IsAfter(entry, cursor.value))
  }

  ghost predicate AllReadable(events: seq<StoredEvent>, read: Event -> Option<Memory>) {
    forall i :: 0 <= i < |events| ==> read(events[i].event).Some?
  }

  /** What the events carry. */
  function Snapshots(events: seq<StoredEvent>, read: Event -> Option<Memory>): (r: seq<Memory>)
    requires AllReadable(events, read)
    ensures |r| == |events|
    ensures forall i :: 0 <= i < |events| ==> r[i] == read(events[i].event).value
  {
    seq(|events|, i requires 0 <= i < |events| && AllReadable(events, read) => read(events[i].event).value)
  }

  lemma SnapshotsConcat(a: seq<StoredEvent>, b: seq<StoredEvent>, read: Event -> Option<Memory>)
    ensures AllReadable(a + b, read) <==> AllReadable(a, read) && AllReadable(b, read)
    ensures AllReadable(a + b, read) ==> Snapshots(a + b, read) == Snapshots(a, read) + Snapshots(b, read)
  {
    assert forall i :: 0 <= i < |a| ==> (a + b)[i] == a[i];
    assert forall i :: 0 <= i < |b| ==> (a + b)[|a| + i] == b[i];
  }

  lemma SnapshotsAppend(events: seq<StoredEvent>, entry: StoredEvent, read: Event -> Option<Memory>)
    ensures AllReadable(events + [entry], read) <==> AllReadable(events, read) && read(entry.event).Some?
    ensures AllReadable(events + [entry], read) ==>
              Snapshots(events + [entry], read) == Snapshots(events, read) + [read(entry.event).value]
  {
    SnapshotsConcat(events, [entry], read);
    assert [entry][0] == entry;
  }

  lemma ForeignAppend(events: seq<StoredEvent>, entry: StoredEvent, deviceId: string)
    ensures Foreign(events + [entry], deviceId)
            == Foreign(events, deviceId) + if entry.event.sourceDeviceId != deviceId then [entry] else []
  {
    FilterAppend(events, [entry], (entry: StoredEvent) => entry.event.sourceDeviceId != deviceId);
  }

  /** The page left the memory with exactly these events' snapshots merged in order, and was counted. */
  ghost predicate Folded(memory: Memory, p: Progress, events: seq<StoredEvent>, foreign: seq<StoredEvent>,
                         read: Event -> Option<Memory>)
    requires AllReadable(foreign, read)
  {
    && p.memory == Fold(memory, Snapshots(foreign, read))
    && p.pulled == |events|
    && p.skippedSelf == |events| - |foreign|
    && p.applied <= |foreign|
  }

  /** A page with one more event of another device. */
  lemma FoldedForeign(memory: Memory, p: Progress, events: seq<StoredEvent>, foreign: seq<StoredEvent>,
                      entry: StoredEvent, deviceId: string, read: Event -> Option<Memory>)
    requires AllReadable(foreign + [entry], read) && AllReadable(foreign, read)
    requires Folded(memory, p, events, foreign, read)
    requires entry.event.sourceDeviceId != deviceId
    ensures AbsorbNext(p, entry.event, deviceId, read).Some?
    ensures Folded(memory, AbsorbNext(p, entry.event, deviceId, read).value, events + [entry], foreign + [entry], read)
  {
    SnapshotsAppend(foreign, entry, read);
    FoldAppend(memory, Snapshots(foreign, read), read(entry.event).value);
  }

  /** An event of the device itself, or of another device that is read or cannot be read. */
  lemma AbsorbedNext(memory: Memory, before: seq<StoredEvent>, entry: StoredEvent, deviceId: string,
                     read: Event -> Option<Memory>)
    requires Absorbed(memory, before, deviceId, read)
    ensures Absorbed(memory, before + [entry], deviceId, read)
  {
    var foreign := Foreign(before, deviceId);
    AbsorbOneMore(memory, before, entry, deviceId, read);
    ForeignAppend(before, entry, deviceId);
    if entry.event.sourceDeviceId == deviceId {
      assert Foreign(before + [entry], deviceId) == foreign;
    } else {
      assert AllReadable(foreign + [entry], read) <==> AllReadable(foreign, read) && read(entry.event).Some? by {
        SnapshotsAppend(foreign, entry, read);
      }
      if AllReadable(foreign + [entry], read) {
        FoldedForeign(memory, Absorb(memory, before, deviceId, read).value, before, foreign, entry, deviceId, read);
      }
    }
  }

  /** What `Absorb` does with a page: see AbsorbFolds. */
  ghost predicate Absorbed(memory: Memory, events: seq<StoredEvent>, deviceId: string, read: Event -> Option<Memory>) {
    var foreign := Foreign(events, deviceId);
    var merged := Absorb(memory, events, deviceId, read);
    if AllReadable(foreign, read) then merged.Some? && Folded(memory, merged.value, events, foreign, read)
    else merged.None?
  }

  /**
    A page either merges, in order, exactly the snapshots of the other devices' events on it, and
    counts what it did, or holds such an event that cannot be read.
  */
  lemma {:induction false} AbsorbFolds(memory: Memory, events: seq<StoredEvent>, deviceId: string,
                                       read: Event -> Option<Memory>)
    ensures Absorbed(memory, events, deviceId, read)
  {
    if events == [] {
      assert Folded(memory, Progress(memory, 0, 0, 0), [], [], read);
    } else {
      var n := |events| - 1;
      AbsorbFolds(memory, events[..n], deviceId, read);
      AbsorbedNext(memory, events[..n], events[n], deviceId, read);
      assert events[..n] + [events[n]] == events;
    }
  }

  // ---------- a page and what lies before and behind it ----------

  predicate Behind(entry: StoredEvent, cursor: Option<Key>) {
    cursor.None? || IsAfter(entry, cursor.value)
  }

  /** How many events are still to come. */
  function Remaining(events: seq<StoredEvent>, cursor: Option<Key>): nat {
    |Filter(events, (entry: StoredEvent) => Behind(entry, cursor))|
  }

  lemma {:induction false} FirstAfterKey(events: seq<StoredEvent>, k: nat)
    requires Strict(events, OldestFirst) && k < |events|
    ensures FirstAfter(events, EventKey(events[k].event)) == k + 1
  {
    KeyOrder();
    if k > 0 {
      assert OldestFirst(events[0], events[k]);
      FirstAfterKey(events[1..], k - 1);
    } else if |events| > 1 {
      assert OldestFirst(events[0], events[1]);
    }
  }

  lemma FirstIsEarliest(events: seq<StoredEvent>, cursor: Key)
    requires Strict(events, OldestFirst) && events != [] && IsAfter(events[0], cursor)
    ensures forall entry :: entry in events ==> IsAfter(entry, cursor)
  {
    KeyOrder();
    forall entry | entry in events
      ensures IsAfter(entry, cursor)
    {
      var i :| 0 <= i < |events| && events[i] == entry;
      assert i > 0 ==> OldestFirst(events[0], events[i]);
    }
  }

  /** The events still to come are the tail that a page is cut from. */
  lemma {:induction false} RemainingIsTail(events: seq<StoredEvent>, cursor: Key)
    requires Strict(events, OldestFirst)
    ensures Remaining(events, Some(cursor)) == |events| - FirstAfter(events, cursor)
  {
    if events != [] {
      if IsAfter(events[0], cursor) {
        FirstIsEarliest(events, cursor);
        FilterAll(events, (entry: StoredEvent) => Behind(entry, Some(cursor)));
      } else {
        RemainingIsTail(events[1..], cursor);
      }
    }
  }

  /** The other devices' events up to a cursor are those in front of the tail. */
  lemma {:induction false} ForeignBeforeTail(events: seq<StoredEvent>, cursor: Key, deviceId: string)
    requires Strict(events, OldestFirst)
    ensures NotAfter(Foreign(events, deviceId), Some(cursor)) == Foreign(events[..FirstAfter(events, cursor)], deviceId)
  {
    var foreign := (entry: StoredEvent) => entry.event.sourceDeviceId != deviceId;
    if events != [] {
      if IsAfter(events[0], cursor) {
        FirstIsEarliest(events, cursor);
        FilterElements(events, foreign);
        FilterNone(Foreign(events, deviceId), (entry: StoredEvent) => !IsAfter(entry, cursor));
      } else {
        var rest := events[1..];
        var k := FirstAfter(rest, cursor);
        ForeignBeforeTail(rest, cursor, deviceId);
        assert events[..1 + k][1..] == rest[..k];
        FilterAppend(if foreign(events[0]) then [events[0]] else [], Foreign(rest, deviceId),
                     (entry: StoredEvent) => !IsAfter(entry, cursor));
      }
    }
  }

  function Start(events: seq<StoredEvent>, cursor: Option<Key>): (start: nat)
    ensures start <= |events|
  {
    if cursor.Some? then FirstAfter(events, cursor.value) else 0
  }

  /** A page is cut from the list where the cursor says, and the next cursor says where it ended. */
  lemma PageParts(events: seq<StoredEvent>, limit: nat, cursor: Option<Key>)
    requires Strict(events, OldestFirst) && limit >= 1
    ensures
      var page, start := PageOf(events, limit, cursor), Start(events, cursor);
      && start + |page.events| <= |events|
      && page.events == events[start..start + |page.events|]
      && (if |events| - start > limit
          then |page.events| == limit && page.nextCursor.Some? && Start(events, page.nextCursor) == start + limit
          else start + |page.events| == |events| && page.nextCursor.None?)
  {
    var start := Start(events, cursor);
    if |events| - start > limit {
      assert events[start..][..limit] == events[start..start + limit];
      FirstAfterKey(events, start + limit - 1);
    } else {
      assert events[start..] == events[start..|events|];
    }
  }

  lemma ForeignBefore(events: seq<StoredEvent>, cursor: Option<Key>, deviceId: string)
    requires Strict(events, OldestFirst)
    ensures NotAfter(Foreign(events, deviceId), cursor) == Foreign(events[..Start(events, cursor)], deviceId)
    ensures Remaining(events, cursor) == |events| - Start(events, cursor)
  {
    if cursor.Some? {
      RemainingIsTail(events, cursor.value);
      ForeignBeforeTail(events, cursor.value, deviceId);
    } else {
      FilterAll(events, (entry: StoredEvent) => Behind(entry, cursor));
    }
  }

  /**
    A page moves the cursor over its events: of the other devices' events it takes exactly those
    between the cursors, and all remaining ones when it is the last.
  */
  lemma PageAdvances(events: seq<StoredEvent>, limit: nat, cursor: Option<Key>, deviceId: string)
    requires Strict(events, OldestFirst) && limit >= 1
    ensures
      var page := PageOf(events, limit, cursor);
      var foreign := Foreign(events, deviceId);
      && NotAfter(foreign, cursor) + Foreign(page.events, deviceId)
         == (if page.nextCursor.Some? then NotAfter(foreign, page.nextCursor) else foreign)
      && (page.nextCursor.Some? <==> Remaining(events, cursor) > limit)
      && (page.nextCursor.Some? ==> Remaining(events, page.nextCursor) == Remaining(events, cursor) - limit)
  {
    var page, start := PageOf(events, limit, cursor), Start(events, cursor);
    PageParts(events, limit, cursor);
    ForeignBefore(events, cursor, deviceId);
    ForeignBefore(events, page.nextCursor, deviceId);
    var end := start + |page.events|;
    assert events[..start] + page.events == events[..end];
    assert events[..|events|] == events;
    assert Foreign(events[..start], deviceId) + Foreign(page.events, deviceId) == Foreign(events[..end], deviceId) by {
      FilterAppend(events[..start], page.events, (entry: StoredEvent) => entry.event.sourceDeviceId != deviceId);
    }
  }

  // ---------- a sync while nothing else happens ----------

  /** The bucket's events after an upload that evicts nothing. */
  function Upload(events: seq<StoredEvent>, stored: StoredEvent): seq<StoredEvent> {
    Sort(events + [stored], OldestFirst)
  }

  /** There is room for `more` events, and what is there is sorted and outlives the horizon. */
  ghost predicate Calm(events: seq<StoredEvent>, more: nat, horizon: int) {
    && Strict(events, OldestFirst)
    && |events| + more <= MAX_ACTIVITY_EVENTS
    && (forall entry :: entry in events ==> entry.event.expiresAt > horizon)
  }

  /** A sync before the horizon, with a new id for an event that outlives the horizon. */
  ghost predicate CalmSync(events: seq<StoredEvent>, s: Sync, horizon: int) {
    && s.uploadedAt <= horizon && s.listedAt <= horizon && s.expiresAt > horizon
    && (forall entry :: entry in events ==> entry.event.eventId != s.eventId)
  }

  lemma UploadElements(events: seq<StoredEvent>, stored: StoredEvent)
    ensures forall entry :: entry in Upload(events, stored) <==> entry in events || entry == stored
    ensures |Upload(events, stored)| == |events| + 1
  {
    SortElements(events + [stored], OldestFirst);
    SortMultiset(events + [stored], OldestFirst);
  }

  lemma UploadCalm(events: seq<StoredEvent>, more: nat, horizon: int, s: Sync, deviceId: string, memory: Memory)
    requires Calm(events, more, horizon) && more > 0 && CalmSync(events, s, horizon)
    ensures Calm(Upload(events, Uploading(s, deviceId, memory)), more - 1, horizon)
  {
    var stored := Uploading(s, deviceId, memory);
    UploadElements(events, stored);
    OldestFirstOrder();
    UploadSeparated(events, stored);
    SortStrict(events + [stored], OldestFirst);
  }

  /** An upload of the device's own adds nothing to the other devices' events. */
  lemma UploadForeign(events: seq<StoredEvent>, more: nat, horizon: int, s: Sync, deviceId: string, memory: Memory)
    requires Calm(events, more, horizon) && more > 0 && CalmSync(events, s, horizon)
    ensures Foreign(Upload(events, Uploading(s, deviceId, memory)), deviceId) == Foreign(events, deviceId)
  {
    var stored := Uploading(s, deviceId, memory);
    var foreign := (entry: StoredEvent) => entry.event.sourceDeviceId != deviceId;
    UploadElements(events, stored);
    UploadCalm(events, more, horizon, s, deviceId, memory);
    FilterElements(events, foreign);
    FilterElements(Upload(events, stored), foreign);
    FilterStrict(events, foreign, OldestFirst);
    FilterStrict(Upload(events, stored), foreign, OldestFirst);
    OldestFirstOrder();
    StrictUnique(Foreign(Upload(events, stored), deviceId), Foreign(events, deviceId), OldestFirst);
  }

  /** One event more is to come iff the upload lies behind the cursor. */
  lemma UploadRemaining(events: seq<StoredEvent>, stored: StoredEvent, cursor: Option<Key>)
    ensures Remaining(Upload(events, stored), cursor)
            == Remaining(events, cursor) + if Behind(stored, cursor) then 1 else 0
  {
    var behind := (entry: StoredEvent) => Behind(entry, cursor);
    SortMultiset(events + [stored], OldestFirst);
    FilterSize(Upload(events, stored), events + [stored], behind);
    FilterAppend(events, [stored], behind);
  }

  /** The account's bucket is there, with these events. */
  ghost predicate HasBucket(docs: map<string, Bucket>, account: Account, events: seq<StoredEvent>) {
    account.bucketId in docs && docs[account.bucketId].authHash == account.tokenHash
    && docs[account.bucketId].events == events
  }

  /** In calm, the relay stores the upload and answers with a page of the bucket's events. */
  lemma SyncInCalm(world: World, account: Account, read: Event -> Option<Memory>, s: Sync, events: seq<StoredEvent>,
                   more: nat, horizon: int)
    requires HasBucket(world.docs, account, events)
    requires Calm(events, more, horizon) && more > 0 && CalmSync(events, s, horizon)
    ensures
      var r := SyncOnce(world, account, read, s);
      var events' := Upload(events, Uploading(s, account.deviceId, world.device.memory));
      var page := PageOf(events', Clamp(s.limit), world.device.cursor);
      && HasBucket(r.world.docs, account, events')
      && match Absorb(world.device.memory, page.events, account.deviceId, read)
         case None => r.outcome == Unreadable && r.world.device == world.device
         case Some(p) =>
           r.outcome == Synced(p.pulled, p.applied, p.skippedSelf)
           && r.world.device == Device(p.memory, page.nextCursor)
  {
    var stored := Uploading(s, account.deviceId, world.device.memory);
    var events' := Upload(events, stored);
    UploadElements(events, stored);
    UploadCalm(events, more, horizon, s, account.deviceId, world.device.memory);
    assert Pruned(events, s.uploadedAt) == events by {
      FilterAll(events, (entry: StoredEvent) => entry.event.expiresAt > s.uploadedAt);
    }
    assert Pruned(events', s.listedAt) == events' by {
      FilterAll(events', (entry: StoredEvent) => entry.event.expiresAt > s.listedAt);
    }
    assert Sort(events', OldestFirst) == events' by {
      OldestFirstOrder();
      SortOfStrict(events', OldestFirst);
    }
    assert FindEvent(events, s.eventId) == None;
  }

  // ---------- runs of syncs ----------

  function Iterate<W, S>(step: (W, S) -> W, w: W, ss: seq<S>): W
    decreases |ss|
  {
    if ss == [] then w else Iterate(step, step(w, ss[0]), ss[1..])
  }

  /** When every step from a state that can finish either finishes or leads to such a state, a run finishes. */
  lemma {:induction false} RunFinishes<W(!new), S(!new)>(step: (W, S) -> W, canFinish: (W, seq<S>) -> bool,
                                                         done: W -> bool, w: W, ss: seq<S>)
    requires canFinish(w, ss)
    requires forall v, rest :: canFinish(v, rest) ==>
               rest != [] && (done(step(v, rest[0])) || canFinish(step(v, rest[0]), rest[1..]))
    ensures exists k | 1 <= k <= |ss| :: done(Iterate(step, w, ss[..k]))
    decreases |ss|
  {
    var v, rest := step(w, ss[0]), ss[1..];
    if done(v) {
      assert ss[..1][0] == ss[0] && ss[..1][1..] == [];
      assert done(Iterate(step, w, ss[..1]));
    } else {
      RunFinishes(step, canFinish, done, v, rest);
      var k :| 1 <= k <= |rest| && done(Iterate(step, v, rest[..k]));
      assert ss[..1 + k][0] == ss[0] && ss[..1 + k][1..] == rest[..k];
      assert done(Iterate(step, w, ss[..1 + k]));
    }
  }

  /** What every step keeps of a state and the steps to come holds of the state after the run. */
  lemma {:induction false} RunKeeps<W(!new), S(!new)>(step: (W, S) -> W, holds: (W, seq<S>) -> bool, w: W, ss: seq<S>)
    requires holds(w, ss)
    requires forall v, rest :: holds(v, rest) && rest != [] ==> holds(step(v, rest[0]), rest[1..])
    ensures holds(Iterate(step, w, ss), [])
    decreases |ss|
  {
    if ss != [] {
      RunKeeps(step, holds, step(w, ss[0]), ss[1..]);
    } else {
      assert ss == [];
    }
  }

  function Step(account: Account, read: Event -> Option<Memory>): (World, Sync) -> World {
    (world: World, s: Sync) => SyncOnce(world, account, read, s).world
  }

  /** The syncs of one device, one after another. */
  function Syncs(world: World, account: Account, read: Event -> Option<Memory>, ss: seq<Sync>): World {
    Iterate(Step(account, read), world, ss)
  }

  /** Nothing else is uploaded while the device syncs, nothing expires, and nothing is evicted. */
  ghost predicate CalmRun(events: seq<StoredEvent>, ss: seq<Sync>, horizon: int) {
    && Calm(events, |ss|, horizon)
    && (forall i :: 0 <= i < |ss| ==> CalmSync(events, ss[i], horizon))
    && (forall i, j :: 0 <= i < j < |ss| ==> ss[i].eventId != ss[j].eventId)
  }

  lemma CalmRunNext(events: seq<StoredEvent>, ss: seq<Sync>, horizon: int, deviceId: string, memory: Memory)
    requires CalmRun(events, ss, horizon) && ss != []
    ensures CalmRun(Upload(events, Uploading(ss[0], deviceId, memory)), ss[1..], horizon)
  {
    var stored := Uploading(ss[0], deviceId, memory);
    UploadElements(events, stored);
    UploadCalm(events, |ss|, horizon, ss[0], deviceId, memory);
    forall i | 0 <= i < |ss[1..]|
      ensures CalmSync(Upload(events, stored), ss[1..][i], horizon)
    {
      assert CalmSync(events, ss[1 + i], horizon);
    }
  }

  /** How far a run gets: each sync moves over its page, but adds one event. */
  function Budget(ss: seq<Sync>): nat {
    if ss == [] then 0 else Clamp(ss[0].limit) - 1 + Budget(ss[1..])
  }

  /** The memory holds the snapshots of the other devices' events up to the cursor, merged oldest first, each once. */
  ghost predicate CaughtUpTo(m: Memory, cursor: Option<Key>, start: Memory, foreign: seq<StoredEvent>,
                             read: Event -> Option<Memory>)
  {
    AllReadable(NotAfter(foreign, cursor), read) && m == Fold(start, Snapshots(NotAfter(foreign, cursor), read))
  }

  ghost predicate CaughtUp(m: Memory, start: Memory, foreign: seq<StoredEvent>, read: Event -> Option<Memory>) {
    AllReadable(foreign, read) && m == Fold(start, Snapshots(foreign, read))
  }

  /** A page brings a memory that had caught up to the cursor up to the next one. */
  lemma PageCatchesUp(device: Device, events: seq<StoredEvent>, limit: nat, deviceId: string, start: Memory,
                      read: Event -> Option<Memory>)
    requires Strict(events, OldestFirst) && limit >= 1
    requires AllReadable(Foreign(events, deviceId), read)
    requires CaughtUpTo(device.memory, device.cursor, start, Foreign(events, deviceId), read)
    ensures
      var page := PageOf(events, limit, device.cursor);
      var merged := Absorb(device.memory, page.events, deviceId, read);
      && merged.Some?
      && if page.nextCursor.Some?
         then CaughtUpTo(merged.value.memory, page.nextCursor, start, Foreign(events, deviceId), read)
         else CaughtUp(merged.value.memory, start, Foreign(events, deviceId), read)
  {
    var foreign := Foreign(events, deviceId);
    var page := PageOf(events, limit, device.cursor);
    PageAdvances(events, limit, device.cursor, deviceId);
    if page.nextCursor.Some? {
      FilterReadable(foreign, (entry: StoredEvent) => !IsAfter(entry, page.nextCursor.value), read);
    }
    MergedBehind(device.memory, page.events, deviceId, start, NotAfter(foreign, device.cursor), read);
  }

  lemma FilterReadable(events: seq<StoredEvent>, keep: StoredEvent -> bool, read: Event -> Option<Memory>)
    requires AllReadable(events, read)
    ensures AllReadable(Filter(events, keep), read)
  {
    var kept := Filter(events, keep);
    FilterElements(events, keep);
    forall i | 0 <= i < |kept|
      ensures read(kept[i].event).Some?
    {
      assert kept[i] in kept;
      var j :| 0 <= j < |events| && events[j] == kept[i];
    }
  }

  /** Merging a page into a memory that has merged what came before it. */
  lemma MergedBehind(m: Memory, page: seq<StoredEvent>, deviceId: string, start: Memory, before: seq<StoredEvent>,
                     read: Event -> Option<Memory>)
    requires AllReadable(before + Foreign(page, deviceId), read)
    requires AllReadable(before, read) && m == Fold(start, Snapshots(before, read))
    ensures
      var merged := Absorb(m, page, deviceId, read);
      merged.Some? && merged.value.memory == Fold(start, Snapshots(before + Foreign(page, deviceId), read))
  {
    var on := Foreign(page, deviceId);
    SnapshotsConcat(before, on, read);
    AbsorbFolds(m, page, deviceId, read);
    FoldConcat(start, Snapshots(before, read), Snapshots(on, read));
  }

  /** The world before a sync of a calm run: the memory has caught up to the cursor. */
  ghost predicate Ready(world: World, account: Account, read: Event -> Option<Memory>, events: seq<StoredEvent>,
                        start: Memory)
  {
    var foreign := Foreign(events, account.deviceId);
    && HasBucket(world.docs, account, events)
    && AllReadable(foreign, read)
    && CaughtUpTo(world.device.memory, world.device.cursor, start, foreign, read)
  }

  /** One sync of a calm run either moves the cursor on by its page, or brings it back to none. */
  lemma SyncProgress(world: World, account: Account, read: Event -> Option<Memory>, s: Sync, events: seq<StoredEvent>,
                     more: nat, horizon: int, start: Memory)
    requires Ready(world, account, read, events, start)
    requires Calm(events, more, horizon) && more > 0 && CalmSync(events, s, horizon)
    ensures
      var after := SyncOnce(world, account, read, s).world;
      var events' := Upload(events, Uploading(s, account.deviceId, world.device.memory));
      var cursor := PageOf(events', Clamp(s.limit), world.device.cursor).nextCursor;
      && Foreign(events', account.deviceId) == Foreign(events, account.deviceId)
      && after.device.cursor == cursor
      && if Remaining(events', world.device.cursor) > Clamp(s.limit)
         then cursor.Some? && Ready(after, account, read, events', start)
              && Remaining(events', cursor) == Remaining(events', world.device.cursor) - Clamp(s.limit)
         else cursor.None? && CaughtUp(after.device.memory, start, Foreign(events, account.deviceId), read)
  {
    var events' := Upload(events, Uploading(s, account.deviceId, world.device.memory));
    SyncInCalm(world, account, read, s, events, more, horizon);
    UploadCalm(events, more, horizon, s, account.deviceId, world.device.memory);
    UploadForeign(events, more, horizon, s, account.deviceId, world.device.memory);
    PageAdvances(events', Clamp(s.limit), world.device.cursor, account.deviceId);
    PageCatchesUp(world.device, events', Clamp(s.limit), account.deviceId, start, read);
  }

  /** The cursor is back at none and everything is merged. */
  ghost predicate Drained(world: World, start: Memory, foreign: seq<StoredEvent>, read: Event -> Option<Memory>) {
    world.device.cursor.None? && CaughtUp(world.device.memory, start, foreign, read)
  }

  /** A calm run whose pages are large enough for what is still to come. */
  ghost predicate CanDrain(world: World, account: Account, read: Event -> Option<Memory>, ss: seq<Sync>,
                           horizon: int, start: Memory, foreign: seq<StoredEvent>)
  {
    && account.bucketId in world.docs
    && var events := world.docs[account.bucketId].events;
       && Ready(world, account, read, events, start) && Foreign(events, account.deviceId) == foreign
       && CalmRun(events, ss, horizon)
       && ss != [] && Remaining(events, world.device.cursor) <= Budget(ss)
  }

  lemma DrainStep(world: World, account: Account, read: Event -> Option<Memory>, ss: seq<Sync>,
                  horizon: int, start: Memory, foreign: seq<StoredEvent>)
    requires CanDrain(world, account, read, ss, horizon, start, foreign)
    ensures
      var after := SyncOnce(world, account, read, ss[0]).world;
      Drained(after, start, foreign, read) || CanDrain(after, account, read, ss[1..], horizon, start, foreign)
  {
    var events, s := world.docs[account.bucketId].events, ss[0];
    var events' := Upload(events, Uploading(s, account.deviceId, world.device.memory));
    SyncProgress(world, account, read, s, events, |ss|, horizon, start);
    if Remaining(events', world.device.cursor) > Clamp(s.limit) {
      UploadRemaining(events, Uploading(s, account.deviceId, world.device.memory), world.device.cursor);
      CalmRunNext(events, ss, horizon, account.deviceId, world.device.memory);
      assert ss[1..] == [] ==> Budget(ss) == Clamp(s.limit) - 1;
    }
  }

  /**
    A device that syncs again and again from no cursor, with no other uploads, no expiry and no
    eviction, gets its cursor back to none within as many syncs as it takes for their limits, less
    one each, to add up to the number of events at the start. By then its memory is the one it had
    with the snapshots of all other devices' events merged, oldest first and each once.
  */
  lemma SyncsDrain(world: World, account: Account, read: Event -> Option<Memory>, ss: seq<Sync>,
                   events: seq<StoredEvent>, horizon: int)
    requires HasBucket(world.docs, account, events) && CalmRun(events, ss, horizon)
    requires AllReadable(Foreign(events, account.deviceId), read)
    requires world.device.cursor.None?
    requires ss != [] && |events| <= Budget(ss)
    ensures exists k | 1 <= k <= |ss| ::
              Drained(Syncs(world, account, read, ss[..k]), world.device.memory,
                      Foreign(events, account.deviceId), read)
  {
    var start, foreign := world.device.memory, Foreign(events, account.deviceId);
    var canDrain := (w: World, rest: seq<Sync>) => CanDrain(w, account, read, rest, horizon, start, foreign);
    FilterAll(events, (entry: StoredEvent) => Behind(entry, None));
    DrainSteps(account, read, horizon, start, foreign);
    RunFinishes(Step(account, read), canDrain, (w: World) => Drained(w, start, foreign, read), world, ss);
  }

  lemma DrainSteps(account: Account, read: Event -> Option<Memory>, horizon: int, start: Memory,
                   foreign: seq<StoredEvent>)
    ensures forall w, rest: seq<Sync> :: CanDrain(w, account, read, rest, horizon, start, foreign) ==>
              var after := Step(account, read)(w, rest[0]);
              Drained(after, start, foreign, read) || CanDrain(after, account, read, rest[1..], horizon, start, foreign)
  {
    forall w, rest: seq<Sync> | CanDrain(w, account, read, rest, horizon, start, foreign)
      ensures
        var after := Step(account, read)(w, rest[0]);
        Drained(after, start, foreign, read) || CanDrain(after, account, read, rest[1..], horizon, start, foreign)
    {
      DrainStep(w, account, read, rest, horizon, start, foreign);
    }
  }

  lemma {:induction false} BudgetAtLeast(ss: seq<Sync>, limit: nat)
    requires limit >= 1 && forall i :: 0 <= i < |ss| ==> Clamp(ss[i].limit) >= limit
    ensures Budget(ss) >= |ss| * (limit - 1)
  {
    if ss != [] {
      BudgetAtLeast(ss[1..], limit);
      assert |ss| * (limit - 1) == |ss[1..]| * (limit - 1) + (limit - 1);
    }
  }

  /** When every page may hold at least L >= 2 events, as many syncs as |events| / (L - 1), rounded up, are enough. */
  lemma SyncsDrainWithLimit(world: World, account: Account, read: Event -> Option<Memory>, ss: seq<Sync>,
                            events: seq<StoredEvent>, horizon: int, limit: nat)
    requires HasBucket(world.docs, account, events) && CalmRun(events, ss, horizon)
    requires AllReadable(Foreign(events, account.deviceId), read)
    requires world.device.cursor.None?
    requires limit >= 2 && forall i :: 0 <= i < |ss| ==> Clamp(ss[i].limit) >= limit
    requires ss != [] && |events| <= |ss| * (limit - 1)
    ensures exists k | 1 <= k <= |ss| ::
              Drained(Syncs(world, account, read, ss[..k]), world.device.memory,
                      Foreign(events, account.deviceId), read)
  {
    BudgetAtLeast(ss, limit);
    SyncsDrain(world, account, read, ss, events, horizon);
  }

  /** Every upload of the run is newer than the events, the cursor, and the uploads before it. */
  ghost predicate UploadsAreNewest(events: seq<StoredEvent>, cursor: Option<Key>, ss: seq<Sync>) {
    && (forall i, entry :: 0 <= i < |ss| && entry in events ==> KeyLess(EventKey(entry.event), KeyOf(ss[i])))
    && (forall i :: 0 <= i < |ss| && cursor.Some? ==> KeyLess(cursor.value, KeyOf(ss[i])))
    && (forall i, j :: 0 <= i < j < |ss| ==> KeyLess(KeyOf(ss[i]), KeyOf(ss[j])))
  }

  lemma NewestNext(events: seq<StoredEvent>, cursor: Option<Key>, ss: seq<Sync>, limit: nat,
                   deviceId: string, memory: Memory)
    requires ss != [] && UploadsAreNewest(events, cursor, ss)
    ensures
      var events' := Upload(events, Uploading(ss[0], deviceId, memory));
      UploadsAreNewest(events', PageOf(events', limit, cursor).nextCursor, ss[1..])
  {
    var stored := Uploading(ss[0], deviceId, memory);
    var events' := Upload(events, stored);
    var page := PageOf(events', limit, cursor);
    UploadElements(events, stored);
    forall i, entry | 0 <= i < |ss[1..]| && entry in events'
      ensures KeyLess(EventKey(entry.event), KeyOf(ss[1..][i]))
    {
      assert ss[1..][i] == ss[1 + i];
    }
    if page.nextCursor.Some? {
      var last := page.events[|page.events| - 1];
      assert last in events';
    }
  }

  /** A calm run whose pages are too small for what is still to come. */
  ghost predicate NeverEnough(world: World, account: Account, read: Event -> Option<Memory>, ss: seq<Sync>,
                              horizon: int, start: Memory)
  {
    && account.bucketId in world.docs
    && var events := world.docs[account.bucketId].events;
       && Ready(world, account, read, events, start) && CalmRun(events, ss, horizon)
       && UploadsAreNewest(events, world.device.cursor, ss)
       && Remaining(events, world.device.cursor) > Budget(ss)
  }

  lemma NeverEnoughStep(world: World, account: Account, read: Event -> Option<Memory>, ss: seq<Sync>,
                        horizon: int, start: Memory)
    requires ss != [] && NeverEnough(world, account, read, ss, horizon, start)
    ensures
      var after := SyncOnce(world, account, read, ss[0]).world;
      after.device.cursor.Some? && NeverEnough(after, account, read, ss[1..], horizon, start)
  {
    var events, s := world.docs[account.bucketId].events, ss[0];
    SyncProgress(world, account, read, s, events, |ss|, horizon, start);
    UploadRemaining(events, Uploading(s, account.deviceId, world.device.memory), world.device.cursor);
    CalmRunNext(events, ss, horizon, account.deviceId, world.device.memory);
    NewestNext(events, world.device.cursor, ss, Clamp(s.limit), account.deviceId, world.device.memory);
  }

  lemma NeverEnoughSteps(account: Account, read: Event -> Option<Memory>, horizon: int, start: Memory)
    ensures forall w, rest: seq<Sync> :: NeverEnough(w, account, read, rest, horizon, start) && rest != [] ==>
              var after := Step(account, read)(w, rest[0]);
              after.device.cursor.Some? && NeverEnough(after, account, read, rest[1..], horizon, start)
  {
    forall w, rest: seq<Sync> | NeverEnough(w, account, read, rest, horizon, start) && rest != []
      ensures
        var after := Step(account, read)(w, rest[0]);
        after.device.cursor.Some? && NeverEnough(after, account, read, rest[1..], horizon, start)
    {
      NeverEnoughStep(w, account, read, rest, horizon, start);
    }
  }

  /** While the limits, less one each, add up to less than the events at the start, the cursor stays set. */
  lemma CursorStaysSet(world: World, account: Account, read: Event -> Option<Memory>, ss: seq<Sync>,
                       events: seq<StoredEvent>, horizon: int)
    requires HasBucket(world.docs, account, events) && CalmRun(events, ss, horizon)
    requires AllReadable(Foreign(events, account.deviceId), read)
    requires world.device.cursor.None? && UploadsAreNewest(events, None, ss)
    requires ss != [] && |events| > Budget(ss)
    ensures Syncs(world, account, read, ss).device.cursor.Some?
  {
    var start := world.device.memory;
    FilterAll(events, (entry: StoredEvent) => Behind(entry, None));
    NeverEnoughSteps(account, read, horizon, start);
    RunKeeps(
      Step(account, read),
      (w: World, rest: seq<Sync>) =>
        NeverEnough(w, account, read, rest, horizon, start) && (|rest| == |ss| || w.device.cursor.Some?),
      world, ss);
  }

  lemma {:induction false} BudgetOfPrefix(ss: seq<Sync>, k: nat)
    requires k <= |ss|
    ensures Budget(ss[..k]) <= Budget(ss)
  {
    if k > 0 {
      assert ss[..k][1..] == ss[1..][..k - 1];
      BudgetOfPrefix(ss[1..], k - 1);
    }
  }

  /**
    With uploads that are newest when they are made, the cursor comes back to none in the course of a
    run iff its limits, less one each, add up to at least the number of events at the start.
  */
  lemma CursorReturnsIff(world: World, account: Account, read: Event -> Option<Memory>, ss: seq<Sync>,
                         events: seq<StoredEvent>, horizon: int)
    requires HasBucket(world.docs, account, events) && CalmRun(events, ss, horizon)
    requires AllReadable(Foreign(events, account.deviceId), read)
    requires world.device.cursor.None? && UploadsAreNewest(events, None, ss) && ss != []
    ensures (exists k | 1 <= k <= |ss| :: Syncs(world, account, read, ss[..k]).device.cursor.None?)
            <==> |events| <= Budget(ss)
  {
    if |events| <= Budget(ss) {
      SyncsDrain(world, account, read, ss, events, horizon);
    } else {
      forall k | 1 <= k <= |ss|
        ensures Syncs(world, account, read, ss[..k]).device.cursor.Some?
      {
        BudgetOfPrefix(ss, k);
        CursorStaysSet(world, account, read, ss[..k], events, horizon);
      }
    }
  }

  lemma {:induction false} NoBudget(ss: seq<Sync>)
    requires forall i :: 0 <= i < |ss| ==> Clamp(ss[i].limit) == 1
    ensures Budget(ss) == 0
  {
    if ss != [] {
      NoBudget(ss[1..]);
    }
  }

  /**
    So with a limit of one event a page the cursor never comes back to none while the bucket held
    anything at the start: each sync moves over one event and adds one that is newer.
  */
  lemma LimitOneNeverDrains(world: World, account: Account, read: Event -> Option<Memory>, ss: seq<Sync>,
                            events: seq<StoredEvent>, horizon: int)
    requires HasBucket(world.docs, account, events) && CalmRun(events, ss, horizon)
    requires AllReadable(Foreign(events, account.deviceId), read)
    requires world.device.cursor.None? && UploadsAreNewest(events, None, ss)
    requires events != [] && ss != [] && forall i :: 0 <= i < |ss| ==> Clamp(ss[i].limit) == 1
    ensures Syncs(world, account, read, ss).device.cursor.Some?
  {
    NoBudget(ss);
    CursorStaysSet(world, account, read, ss, events, horizon);
  }

  // ---------- an event that cannot be read ----------

  lemma {:induction false} NotBehindBefore(events: seq<StoredEvent>, cursor: Key, k: nat)
    requires k < FirstAfter(events, cursor)
    ensures !IsAfter(events[k], cursor)
  {
    if k > 0 {
      NotBehindBefore(events[1..], cursor, k - 1);
    }
  }

  lemma SliceMember<T>(xs: seq<T>, from: nat, to: nat, i: nat)
    requires from <= to <= |xs| && i < |xs|
    ensures from <= i < to ==> xs[i] in xs[from..to]
  {
    if from <= i < to {
      assert xs[from..to][i - from] == xs[i];
    }
  }

  /** A page that does not hold an event still to come ends before it. */
  lemma PageEndsBefore(events: seq<StoredEvent>, limit: nat, cursor: Option<Key>, entry: StoredEvent)
    requires Strict(events, OldestFirst) && limit >= 1
    requires entry in events && Behind(entry, cursor) && entry !in PageOf(events, limit, cursor).events
    ensures PageOf(events, limit, cursor).nextCursor.Some? && Behind(entry, PageOf(events, limit, cursor).nextCursor)
  {
    var page, start := PageOf(events, limit, cursor), Start(events, cursor);
    PageParts(events, limit, cursor);
    var i :| 0 <= i < |events| && events[i] == entry;
    SliceMember(events, start, start + |page.events|, i);
    assert i >= start by {
      if cursor.Some? && i < start {
        NotBehindBefore(events, cursor.value, i);
      }
    }
    assert OldestFirst(events[start + |page.events| - 1], events[i]);
  }

  /** The events a sync lists: those of the bucket after its upload, unexpired and in order. */
  function Listed(docs: map<string, Bucket>, account: Account, s: Sync, memory: Memory): seq<StoredEvent> {
    var b := account.bucketId;
    var event := EventOf(s, account.deviceId, memory);
    var put := Decide(Request(b, Put(account.tokenHash, event, s.uploadedAt)), Lookup(docs, b));
    match Lookup(Applied(docs, b, put), b)
    case None => []
    case Some(bucket) => Sort(Pruned(bucket.events, s.listedAt), OldestFirst)
  }

  /**
    A sync against a bucket in any state, as other devices, expiry and eviction may have left it, in
    which the event is still listed, whatever memory the device uploads. (Every history keeps a bucket's
    events strictly sorted: ActivityFeed.HistoryShape.)
  */
  ghost predicate StillListed(docs: map<string, Bucket>, account: Account, s: Sync, entry: StoredEvent) {
    && (account.bucketId in docs ==> Strict(docs[account.bucketId].events, OldestFirst))
    && forall memory :: entry in Listed(docs, account, s, memory)
  }

  lemma PrunedStrict(events: seq<StoredEvent>, now: int)
    requires Strict(events, OldestFirst)
    ensures Strict(Pruned(events, now), OldestFirst)
  {
    FilterStrict(events, (entry: StoredEvent) => entry.event.expiresAt > now, OldestFirst);
  }

  lemma WithEventStrict(events: seq<StoredEvent>, stored: StoredEvent)
    requires Strict(events, OldestFirst)
    requires forall entry :: entry in events ==> entry.event.eventId != stored.event.eventId
    ensures Strict(WithEvent(events, stored), OldestFirst)
  {
    OldestFirstOrder();
    UploadSeparated(events, stored);
    SortStrict(events + [stored], OldestFirst);
  }

  /** What a sync lists is strictly sorted, when what the bucket held was. */
  lemma ListedIsStrict(docs: map<string, Bucket>, account: Account, s: Sync, memory: Memory)
    requires account.bucketId in docs ==> Strict(docs[account.bucketId].events, OldestFirst)
    ensures Strict(Listed(docs, account, s, memory), OldestFirst)
  {
    var b, stored := account.bucketId, Uploading(s, account.deviceId, memory);
    var put := Decide(Request(b, Put(account.tokenHash, stored.event, s.uploadedAt)), Lookup(docs, b));
    var uploaded := Applied(docs, b, put);
    if b in docs {
      PrunedStrict(docs[b].events, s.uploadedAt);
      var kept := Pruned(docs[b].events, s.uploadedAt);
      if FindEvent(kept, s.eventId).None? {
        WithEventStrict(kept, stored);
      }
    } else {
      WithEventStrict([], stored);
    }
    OldestFirstOrder();
    PrunedStrict(uploaded[b].events, s.listedAt);
    SortOfStrict(Pruned(uploaded[b].events, s.listedAt), OldestFirst);
  }

  /** Syncs of one device; anything may happen to the buckets in between. */
  function DeviceAfter(docs: seq<map<string, Bucket>>, device: Device, account: Account,
                       read: Event -> Option<Memory>, ss: seq<Sync>): Device
    requires |docs| == |ss|
    decreases |ss|
  {
    if ss == [] then device
    else
      var next := SyncOnce(World(docs[0], device), account, read, ss[0]).world.device;
      DeviceAfter(docs[1..], next, account, read, ss[1..])
  }

  /** A page with the event on it cannot be merged; one without it ends before it. */
  lemma UnreadablePage(device: Device, events: seq<StoredEvent>, limit: nat, account: Account,
                       read: Event -> Option<Memory>, entry: StoredEvent)
    requires Strict(events, OldestFirst) && limit >= 1 && entry in events && Behind(entry, device.cursor)
    requires entry.event.sourceDeviceId != account.deviceId && read(entry.event).None?
    ensures
      var page := PageOf(events, limit, device.cursor);
      || Absorb(device.memory, page.events, account.deviceId, read).None?
      || (page.nextCursor.Some? && Behind(entry, page.nextCursor))
  {
    var page := PageOf(events, limit, device.cursor);
    if entry in page.events {
      AbsorbFolds(device.memory, page.events, account.deviceId, read);
      FilterElements(page.events, (e: StoredEvent) => e.event.sourceDeviceId != account.deviceId);
    } else {
      PageEndsBefore(events, limit, device.cursor, entry);
    }
  }

  lemma UnreadableStops(docs: map<string, Bucket>, device: Device, account: Account, read: Event -> Option<Memory>,
                        s: Sync, entry: StoredEvent)
    requires StillListed(docs, account, s, entry) && Behind(entry, device.cursor)
    requires entry.event.sourceDeviceId != account.deviceId && read(entry.event).None?
    ensures
      var next := SyncOnce(World(docs, device), account, read, s).world.device;
      next == device || (next.cursor.Some? && Behind(entry, next.cursor))
  {
    ListedIsStrict(docs, account, s, device.memory);
    UnreadablePage(device, Listed(docs, account, s, device.memory), Clamp(s.limit), account, read, entry);
  }

  /**
    Whatever happens to the bucket between the syncs, as long as an event of another device that
    cannot be read is listed, no sync passes it: the cursor stays before it, and is none only if no
    sync has changed the device at all.
  */
  lemma {:induction false} UnreadableEventIsNeverPassed(
      docs: seq<map<string, Bucket>>, device: Device, account: Account, read: Event -> Option<Memory>,
      ss: seq<Sync>, entry: StoredEvent)
    requires |docs| == |ss| && forall i :: 0 <= i < |ss| ==> StillListed(docs[i], account, ss[i], entry)
    requires entry.event.sourceDeviceId != account.deviceId && read(entry.event).None?
    requires Behind(entry, device.cursor)
    ensures
      var after := DeviceAfter(docs, device, account, read, ss);
      Behind(entry, after.cursor) && (after.cursor.None? ==> after == device)
    decreases |ss|
  {
    if ss != [] {
      var next := SyncOnce(World(docs[0], device), account, read, ss[0]).world.device;
      UnreadableStops(docs[0], device, account, read, ss[0], entry);
      UnreadableEventIsNeverPassed(docs[1..], next, account, read, ss[1..], entry);
    }
  }
}
