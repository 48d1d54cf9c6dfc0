/**
  Several devices that sync against one bucket, in any interleaving: once each has uploaded, and then
  read the bucket from end to end, all hold the same tags, peers and interactions.
*/
module Convergence {
  import opened Wrappers
  import opened Keys
  import opened Sorting
  import opened NamedList
  import opened LastWriterWins
  import opened MemoryMerge
  import opened ActivityFeed
  import opened ActivitySync

  /** The relay's buckets and the devices by id. */
  datatype Fleet = Fleet(docs: map<string, Bucket>, devices: map<string, Device>)

  /** One sync of one of the devices. */
  datatype Turn = Turn(deviceId: string, sync: Sync)

  function TakeTurn(fleet: Fleet, account: Account, read: Event -> Option<Memory>, t: Turn): Fleet {
    if t.deviceId !in fleet.devices then fleet
    else
      var world := World(fleet.docs, fleet.devices[t.deviceId]);
      var after := SyncOnce(world, account.(deviceId := t.deviceId), read, t.sync).world;
      Fleet(after.docs, fleet.devices[t.deviceId := after.device])
  }

  function Turns(fleet: Fleet, account: Account, read: Event -> Option<Memory>, run: seq<Turn>): Fleet {
    if |run| == 0 then fleet
    else TakeTurn(Turns(fleet, account, read, run[..|run| - 1]), account, read, run[|run| - 1])
  }

  // ---------- where the content of a memory comes from ----------

  /** All tags, peers and interactions of the memory are from the pool. */
  ghost predicate Made(m: Memory, pool: seq<Memory>) {
    && (forall t :: t in m.commonTags ==> t in AllTags(pool))
    && (forall p :: p in m.discoveredPeers ==> p in AllPeers(pool))
    && (forall x :: x in m.interactions ==> x in AllInteractions(pool))
  }

  /** A peer has one entry, and one interaction. */
  ghost predicate Distinct(m: Memory) {
    UniqueNames(m.discoveredPeers, PeerIdOf) && UniqueNames(m.interactions, InteractionPeer)
  }

  lemma {:induction false} MergeAllMembers<T>(list: seq<T>, remote: seq<T>, id: T -> string, time: T -> int)
    ensures forall x :: x in MergeAll(list, remote, id, time) ==> x in list || x in remote
  {
    if remote != [] {
      MergeAllMembers(list, remote[..|remote| - 1], id, time);
      assert remote == remote[..|remote| - 1] + [remote[|remote| - 1]];
    }
  }

  lemma MergedMade(m: Memory, s: Memory, pool: seq<Memory>)
    requires Made(m, pool) && Made(s, pool)
    ensures Made(Merged(m, s), pool)
  {
    MergeAllMembers(m.discoveredPeers, s.discoveredPeers, PeerIdOf, LastSeen);
    MergeAllMembers(m.interactions, s.interactions, InteractionPeer, LastUpdated);
    AddTagsElements(m.commonTags, s.commonTags);
    SortDedupProperties(AddTags(m.commonTags, s.commonTags));
  }

  lemma MergedDistinct(m: Memory, s: Memory)
    requires Distinct(m)
    ensures Distinct(Merged(m, s))
  {
    MergeAllEffect(m.discoveredPeers, s.discoveredPeers, PeerIdOf, LastSeen);
    MergeAllEffect(m.interactions, s.interactions, InteractionPeer, LastUpdated);
  }

  lemma {:induction false} FoldMade(m: Memory, snapshots: seq<Memory>, pool: seq<Memory>)
    requires Made(m, pool) && Distinct(m) && forall i :: 0 <= i < |snapshots| ==> Made(snapshots[i], pool)
    ensures Made(Fold(m, snapshots), pool) && Distinct(Fold(m, snapshots))
  {
    if snapshots != [] {
      var n := |snapshots| - 1;
      FoldMade(m, snapshots[..n], pool);
      MergedMade(Fold(m, snapshots[..n]), snapshots[n], pool);
      MergedDistinct(Fold(m, snapshots[..n]), snapshots[n]);
    }
  }

  /** With one entry each, a memory covers itself. */
  lemma SelfSaturated(m: Memory)
    requires Distinct(m)
    ensures Saturated(m, m)
  {
    ByNameElements(m.discoveredPeers, PeerIdOf);
    ByNameElements(m.interactions, InteractionPeer);
  }

  lemma CoversThrough<T>(list: seq<T>, big: map<string, T>, r: T, id: T -> string, time: T -> int)
    requires Covers(ByName(list, id), r, id, time)
    requires forall i :: 0 <= i < |list| ==> Covers(big, list[i], id, time)
    ensures Covers(big, r, id, time)
  {
    ByNameOfIndex(list, id, id(r));
    var i := IndexOf(list, id, id(r));
    assert Covers(big, list[i], id, time);
  }

  lemma SaturatedThrough(a: Memory, b: Memory, x: Memory)
    requires Saturated(a, b) && Saturated(b, x)
    ensures Saturated(a, x)
  {
    forall i | 0 <= i < |x.discoveredPeers|
      ensures Covers(PeerMap(a), x.discoveredPeers[i], PeerIdOf, LastSeen)
    {
      CoversThrough(b.discoveredPeers, PeerMap(a), x.discoveredPeers[i], PeerIdOf, LastSeen);
    }
    forall i | 0 <= i < |x.interactions|
      ensures Covers(InteractionMap(a), x.interactions[i], InteractionPeer, LastUpdated)
    {
      CoversThrough(b.interactions, InteractionMap(a), x.interactions[i], InteractionPeer, LastUpdated);
    }
  }

  // ---------- one turn ----------

  /** Whatever memory is encrypted, the devices can decrypt it. */
  ghost predicate Opens(read: Event -> Option<Memory>, s: Sync) {
    forall deviceId, m :: read(EventOf(s, deviceId, m)) == Some(m)
  }

  /** New ids for all uploads; nothing expires and nothing is evicted. */
  ghost predicate CalmTurns(events: seq<StoredEvent>, run: seq<Turn>, horizon: int) {
    && Calm(events, |run|, horizon)
    && (forall i :: 0 <= i < |run| ==> CalmSync(events, run[i].sync, horizon))
    && (forall i, j :: 0 <= i < j < |run| ==> run[i].sync.eventId != run[j].sync.eventId)
  }

  ghost predicate EventsSound(events: seq<StoredEvent>, read: Event -> Option<Memory>, pool: seq<Memory>) {
    forall entry :: entry in events ==> read(entry.event).Some? && Made(read(entry.event).value, pool)
  }

  ghost predicate DevicesSound(devices: map<string, Device>, pool: seq<Memory>) {
    forall d :: d in devices ==> Made(devices[d].memory, pool) && Distinct(devices[d].memory)
  }

  ghost predicate TurnsSound(devices: map<string, Device>, read: Event -> Option<Memory>, run: seq<Turn>) {
    forall i :: 0 <= i < |run| ==> run[i].deviceId in devices && Opens(read, run[i].sync)
  }

  /** Devices with a bucket, and the turns they are about to take. */
  ghost predicate Sound(fleet: Fleet, account: Account, read: Event -> Option<Memory>, run: seq<Turn>,
                        horizon: int, pool: seq<Memory>)
  {
    && account.bucketId in fleet.docs && fleet.docs[account.bucketId].authHash == account.tokenHash
    && CalmTurns(fleet.docs[account.bucketId].events, run, horizon)
    && EventsSound(fleet.docs[account.bucketId].events, read, pool)
    && DevicesSound(fleet.devices, pool) && TurnsSound(fleet.devices, read, run)
  }

  function EventsOf(fleet: Fleet, account: Account): seq<StoredEvent> {
    if account.bucketId in fleet.docs then fleet.docs[account.bucketId].events else []
  }

  /** What a turn does: an upload, and a page of snapshots merged. */
  ghost predicate TurnEffect(fleet: Fleet, after: Fleet, account: Account, read: Event -> Option<Memory>, t: Turn)
    requires t.deviceId in fleet.devices && t.deviceId in after.devices
  {
    var device := fleet.devices[t.deviceId];
    var events := Upload(EventsOf(fleet, account), Uploading(t.sync, t.deviceId, device.memory));
    var page := PageOf(events, Clamp(t.sync.limit), device.cursor);
    var foreign := Foreign(page.events, t.deviceId);
    && HasBucket(after.docs, account, events)
    && AllReadable(foreign, read)
    && after.devices == fleet.devices[t.deviceId :=
         Device(Fold(device.memory, Snapshots(foreign, read)), page.nextCursor)]
  }

  lemma PageMembers(events: seq<StoredEvent>, limit: nat, cursor: Option<Key>, deviceId: string)
    ensures forall entry :: entry in Foreign(PageOf(events, limit, cursor).events, deviceId) ==>
              entry in PageOf(events, limit, cursor).events && entry in events
              && entry.event.sourceDeviceId != deviceId
  {
    FilterElements(PageOf(events, limit, cursor).events,
                   (entry: StoredEvent) => entry.event.sourceDeviceId != deviceId);
  }

  lemma UploadSound(events: seq<StoredEvent>, read: Event -> Option<Memory>, pool: seq<Memory>, t: Turn, m: Memory)
    requires EventsSound(events, read, pool) && Opens(read, t.sync) && Made(m, pool)
    ensures EventsSound(Upload(events, Uploading(t.sync, t.deviceId, m)), read, pool)
  {
    UploadElements(events, Uploading(t.sync, t.deviceId, m));
  }

  lemma TurnHasEffect(fleet: Fleet, account: Account, read: Event -> Option<Memory>, run: seq<Turn>,
                      horizon: int, pool: seq<Memory>)
    requires |run| > 0 && Sound(fleet, account, read, run, horizon, pool)
    ensures TurnEffect(fleet, TakeTurn(fleet, account, read, run[0]), account, read, run[0])
  {
    var t, events := run[0], fleet.docs[account.bucketId].events;
    var device, own := fleet.devices[t.deviceId], account.(deviceId := t.deviceId);
    var events' := Upload(events, Uploading(t.sync, t.deviceId, device.memory));
    SyncInCalm(World(fleet.docs, device), own, read, t.sync, events, |run|, horizon);
    UploadSound(events, read, pool, t, device.memory);
    PageMembers(events', Clamp(t.sync.limit), device.cursor, t.deviceId);
    AbsorbFolds(device.memory, PageOf(events', Clamp(t.sync.limit), device.cursor).events, t.deviceId, read);
  }

  lemma CalmTurnsNext(events: seq<StoredEvent>, run: seq<Turn>, horizon: int, m: Memory)
    requires |run| > 0 && CalmTurns(events, run, horizon)
    ensures CalmTurns(Upload(events, Uploading(run[0].sync, run[0].deviceId, m)), run[1..], horizon)
  {
    var t := run[0];
    var stored := Uploading(t.sync, t.deviceId, m);
    UploadElements(events, stored);
    UploadCalm(events, |run|, horizon, t.sync, t.deviceId, m);
    forall i | 0 <= i < |run[1..]|
      ensures CalmSync(Upload(events, stored), run[1..][i].sync, horizon)
    {
      assert CalmSync(events, run[1 + i].sync, horizon);
    }
  }

  lemma TurnKeepsSound(fleet: Fleet, account: Account, read: Event -> Option<Memory>, run: seq<Turn>,
                       horizon: int, pool: seq<Memory>)
    requires |run| > 0 && Sound(fleet, account, read, run, horizon, pool)
    ensures Sound(TakeTurn(fleet, account, read, run[0]), account, read, run[1..], horizon, pool)
  {
    var t, events := run[0], fleet.docs[account.bucketId].events;
    var device := fleet.devices[t.deviceId];
    var events' := Upload(events, Uploading(t.sync, t.deviceId, device.memory));
    var foreign := Foreign(PageOf(events', Clamp(t.sync.limit), device.cursor).events, t.deviceId);
    TurnHasEffect(fleet, account, read, run, horizon, pool);
    CalmTurnsNext(events, run, horizon, device.memory);
    UploadSound(events, read, pool, t, device.memory);
    PageMembers(events', Clamp(t.sync.limit), device.cursor, t.deviceId);
    forall i | 0 <= i < |foreign|
      ensures Made(Snapshots(foreign, read)[i], pool)
    {
      assert foreign[i] in foreign;
    }
    FoldMade(device.memory, Snapshots(foreign, read), pool);
  }

  // ---------- runs ----------

  lemma {:induction false} SoundAt(fleet: Fleet, account: Account, read: Event -> Option<Memory>, run: seq<Turn>,
                                   horizon: int, pool: seq<Memory>, j: nat)
    requires Sound(fleet, account, read, run, horizon, pool) && j <= |run|
    ensures Sound(Turns(fleet, account, read, run[..j]), account, read, run[j..], horizon, pool)
  {
    if j == 0 {
      assert run[0..] == run;
    } else {
      SoundAt(fleet, account, read, run, horizon, pool, j - 1);
      TurnKeepsSound(Turns(fleet, account, read, run[..j - 1]), account, read, run[j - 1..], horizon, pool);
      assert run[..j][..j - 1] == run[..j - 1] && run[j - 1..][1..] == run[j..];
    }
  }

  lemma NextTurn(fleet: Fleet, account: Account, read: Event -> Option<Memory>, run: seq<Turn>,
                 horizon: int, pool: seq<Memory>, j: nat)
    requires Sound(fleet, account, read, run, horizon, pool) && j < |run|
    ensures
      var before, after := Turns(fleet, account, read, run[..j]), Turns(fleet, account, read, run[..j + 1]);
      && run[j].deviceId in before.devices && run[j].deviceId in after.devices
      && TurnEffect(before, after, account, read, run[j])
      && Opens(read, run[j].sync) && Strict(EventsOf(after, account), OldestFirst)
  {
    SoundAt(fleet, account, read, run, horizon, pool, j);
    SoundAt(fleet, account, read, run, horizon, pool, j + 1);
    TurnHasEffect(Turns(fleet, account, read, run[..j]), account, read, run[j..], horizon, pool);
    assert run[..j + 1][..j] == run[..j] && run[j..][0] == run[j];
  }

  lemma {:induction false} DevicesStay(fleet: Fleet, account: Account, read: Event -> Option<Memory>, run: seq<Turn>)
    ensures Turns(fleet, account, read, run).devices.Keys == fleet.devices.Keys
  {
    if |run| > 0 {
      DevicesStay(fleet, account, read, run[..|run| - 1]);
    }
  }

  /** Events stay in the bucket. */
  lemma {:induction false} EventStays(fleet: Fleet, account: Account, read: Event -> Option<Memory>, run: seq<Turn>,
                                      horizon: int, pool: seq<Memory>, j: nat, k: nat, entry: StoredEvent)
    requires Sound(fleet, account, read, run, horizon, pool) && j <= k <= |run|
    requires entry in EventsOf(Turns(fleet, account, read, run[..j]), account)
    ensures entry in EventsOf(Turns(fleet, account, read, run[..k]), account)
    decreases k - j
  {
    if j < k {
      NextKeepsEvent(fleet, account, read, run, horizon, pool, j, entry);
      EventStays(fleet, account, read, run, horizon, pool, j + 1, k, entry);
    }
  }

  lemma NextKeepsEvent(fleet: Fleet, account: Account, read: Event -> Option<Memory>, run: seq<Turn>,
                       horizon: int, pool: seq<Memory>, j: nat, entry: StoredEvent)
    requires Sound(fleet, account, read, run, horizon, pool) && j < |run|
    requires entry in EventsOf(Turns(fleet, account, read, run[..j]), account)
    ensures entry in EventsOf(Turns(fleet, account, read, run[..j + 1]), account)
  {
    NextTurn(fleet, account, read, run, horizon, pool, j);
    TurnKeepsEvent(Turns(fleet, account, read, run[..j]), Turns(fleet, account, read, run[..j + 1]), account, read,
                   run[j], entry);
  }

  lemma TurnKeepsEvent(before: Fleet, after: Fleet, account: Account, read: Event -> Option<Memory>, t: Turn,
                       entry: StoredEvent)
    requires t.deviceId in before.devices && t.deviceId in after.devices
    requires TurnEffect(before, after, account, read, t) && entry in EventsOf(before, account)
    ensures entry in EventsOf(after, account)
  {
    UploadElements(EventsOf(before, account),
                   Uploading(t.sync, t.deviceId, before.devices[t.deviceId].memory));
  }

  lemma TurnKeepsMemory(before: Fleet, after: Fleet, account: Account, read: Event -> Option<Memory>, t: Turn,
                        d: string)
    requires t.deviceId in before.devices && t.deviceId in after.devices && d in before.devices && d in after.devices
    requires TurnEffect(before, after, account, read, t)
    ensures NoOlder(after.devices[d].memory, before.devices[d].memory)
  {
    var device := before.devices[t.deviceId];
    var events := Upload(EventsOf(before, account), Uploading(t.sync, t.deviceId, device.memory));
    var foreign := Foreign(PageOf(events, Clamp(t.sync.limit), device.cursor).events, t.deviceId);
    FoldNeverGoesBack(device.memory, Snapshots(foreign, read));
    NoOlderSelf(before.devices[d].memory);
  }

  lemma NoOlderSelf(m: Memory)
    ensures NoOlder(m, m)
  {
  }

  /** What a device's memory covers it goes on to cover. */
  lemma {:induction false} CoverageStays(
      fleet: Fleet, account: Account, read: Event -> Option<Memory>, run: seq<Turn>,
      horizon: int, pool: seq<Memory>, j: nat, k: nat, d: string, x: Memory)
    requires Sound(fleet, account, read, run, horizon, pool) && j <= k <= |run|
    requires d in Turns(fleet, account, read, run[..j]).devices
    requires Saturated(Turns(fleet, account, read, run[..j]).devices[d].memory, x)
    ensures d in Turns(fleet, account, read, run[..k]).devices
    ensures Saturated(Turns(fleet, account, read, run[..k]).devices[d].memory, x)
    decreases k - j
  {
    if j < k {
      NextKeepsCoverage(fleet, account, read, run, horizon, pool, j, d, x);
      CoverageStays(fleet, account, read, run, horizon, pool, j + 1, k, d, x);
    }
  }

  lemma NextKeepsCoverage(fleet: Fleet, account: Account, read: Event -> Option<Memory>, run: seq<Turn>,
                          horizon: int, pool: seq<Memory>, j: nat, d: string, x: Memory)
    requires Sound(fleet, account, read, run, horizon, pool) && j < |run|
    requires d in Turns(fleet, account, read, run[..j]).devices
    requires Saturated(Turns(fleet, account, read, run[..j]).devices[d].memory, x)
    ensures d in Turns(fleet, account, read, run[..j + 1]).devices
    ensures Saturated(Turns(fleet, account, read, run[..j + 1]).devices[d].memory, x)
  {
    var before, after := Turns(fleet, account, read, run[..j]), Turns(fleet, account, read, run[..j + 1]);
    NextTurn(fleet, account, read, run, horizon, pool, j);
    TurnKeepsMemory(before, after, account, read, run[j], d);
    SaturationLasts(before.devices[d].memory, after.devices[d].memory, x);
  }

  /** A turn merges an event still to come, or its cursor stays before it. */
  lemma TurnMerges(before: Fleet, after: Fleet, account: Account, read: Event -> Option<Memory>, t: Turn,
                   entry: StoredEvent)
    requires t.deviceId in before.devices && t.deviceId in after.devices
    requires TurnEffect(before, after, account, read, t) && Strict(EventsOf(after, account), OldestFirst)
    requires entry in EventsOf(before, account) && entry.event.sourceDeviceId != t.deviceId
    requires read(entry.event).Some? && Behind(entry, before.devices[t.deviceId].cursor)
    ensures
      var device := after.devices[t.deviceId];
      Saturated(device.memory, read(entry.event).value) || (device.cursor.Some? && Behind(entry, device.cursor))
  {
    var device := before.devices[t.deviceId];
    var stored := Uploading(t.sync, t.deviceId, device.memory);
    var events := Upload(EventsOf(before, account), stored);
    var page := PageOf(events, Clamp(t.sync.limit), device.cursor);
    var foreign := Foreign(page.events, t.deviceId);
    UploadElements(EventsOf(before, account), stored);
    if entry in page.events {
      FilterElements(page.events, (e: StoredEvent) => e.event.sourceDeviceId != t.deviceId);
      FoldSaturates(device.memory, Snapshots(foreign, read));
      var i :| 0 <= i < |foreign| && foreign[i] == entry;
      assert Snapshots(foreign, read)[i] == read(entry.event).value;
    } else {
      PageEndsBefore(events, Clamp(t.sync.limit), device.cursor, entry);
    }
  }

  ghost predicate TookTurn(run: seq<Turn>, d: string, p: nat, q: nat) {
    exists i :: p <= i < q && i < |run| && run[i].deviceId == d
  }

  lemma TookTurnNext(run: seq<Turn>, d: string, p: nat, j: nat)
    requires p < j <= |run|
    ensures TookTurn(run, d, p, j) <==> TookTurn(run, d, p, j - 1) || run[j - 1].deviceId == d
  {
  }

  /** In a pass from no cursor: the event is merged, or the cursor has not come to it. */
  ghost predicate Passing(device: Device, entry: StoredEvent, snapshot: Memory, started: bool) {
    || Saturated(device.memory, snapshot)
    || (device.cursor.None? && !started)
    || (device.cursor.Some? && Behind(entry, device.cursor))
  }

  /** The event is there, and the device has merged it or is on its way to it. */
  ghost predicate OnItsWay(fleet: Fleet, account: Account, read: Event -> Option<Memory>, d: string,
                           entry: StoredEvent, started: bool)
  {
    && d in fleet.devices && entry in EventsOf(fleet, account)
    && entry.event.sourceDeviceId != d && read(entry.event).Some?
    && Passing(fleet.devices[d], entry, read(entry.event).value, started)
  }

  lemma TurnOnTheWay(before: Fleet, after: Fleet, account: Account, read: Event -> Option<Memory>, t: Turn,
                     d: string, entry: StoredEvent, started: bool)
    requires t.deviceId in before.devices && t.deviceId in after.devices
    requires TurnEffect(before, after, account, read, t) && Strict(EventsOf(after, account), OldestFirst)
    requires OnItsWay(before, account, read, d, entry, started)
    ensures OnItsWay(after, account, read, d, entry, started || t.deviceId == d)
  {
    TurnKeepsEvent(before, after, account, read, t, entry);
    if Saturated(before.devices[d].memory, read(entry.event).value) {
      TurnKeepsMemory(before, after, account, read, t, d);
      SaturationLasts(before.devices[d].memory, after.devices[d].memory, read(entry.event).value);
    } else if t.deviceId == d {
      TurnMerges(before, after, account, read, t, entry);
    } else {
      assert after.devices[d] == before.devices[d];
    }
  }

  lemma NextOnTheWay(fleet: Fleet, account: Account, read: Event -> Option<Memory>, run: seq<Turn>,
                     horizon: int, pool: seq<Memory>, j: nat, d: string, entry: StoredEvent, started: bool)
    requires Sound(fleet, account, read, run, horizon, pool) && j < |run|
    requires OnItsWay(Turns(fleet, account, read, run[..j]), account, read, d, entry, started)
    ensures OnItsWay(Turns(fleet, account, read, run[..j + 1]), account, read, d, entry,
                     started || run[j].deviceId == d)
  {
    NextTurn(fleet, account, read, run, horizon, pool, j);
    TurnOnTheWay(Turns(fleet, account, read, run[..j]), Turns(fleet, account, read, run[..j + 1]), account, read,
                 run[j], d, entry, started);
  }

  lemma {:induction false} PassGoesOn(fleet: Fleet, account: Account, read: Event -> Option<Memory>, run: seq<Turn>,
                                      horizon: int, pool: seq<Memory>, d: string, p: nat, j: nat, entry: StoredEvent)
    requires Sound(fleet, account, read, run, horizon, pool) && p <= j <= |run|
    requires OnItsWay(Turns(fleet, account, read, run[..p]), account, read, d, entry, false)
    ensures OnItsWay(Turns(fleet, account, read, run[..j]), account, read, d, entry, TookTurn(run, d, p, j))
    decreases j
  {
    if p < j {
      PassGoesOn(fleet, account, read, run, horizon, pool, d, p, j - 1, entry);
      NextOnTheWay(fleet, account, read, run, horizon, pool, j - 1, d, entry, TookTurn(run, d, p, j - 1));
      TookTurnNext(run, d, p, j);
    }
  }

  /** Between turns p and q the device read the bucket from end to end: from no cursor to none again. */
  ghost predicate Pass(fleet: Fleet, account: Account, read: Event -> Option<Memory>, run: seq<Turn>,
                       d: string, p: nat, q: nat)
  {
    && p < q <= |run| && TookTurn(run, d, p, q)
    && var start, end := Turns(fleet, account, read, run[..p]), Turns(fleet, account, read, run[..q]);
       && d in start.devices && start.devices[d].cursor.None?
       && d in end.devices && end.devices[d].cursor.None?
  }

  /** A pass merges every event of another device that was there when it began. */
  lemma PassMerges(fleet: Fleet, account: Account, read: Event -> Option<Memory>, run: seq<Turn>,
                   horizon: int, pool: seq<Memory>, d: string, p: nat, q: nat, entry: StoredEvent)
    requires Sound(fleet, account, read, run, horizon, pool) && d in fleet.devices
    requires Pass(fleet, account, read, run, d, p, q)
    requires entry in EventsOf(Turns(fleet, account, read, run[..p]), account) && entry.event.sourceDeviceId != d
    ensures
      var last := Turns(fleet, account, read, run);
      && d in last.devices && read(entry.event).Some?
      && Saturated(last.devices[d].memory, read(entry.event).value)
  {
    SoundAt(fleet, account, read, run, horizon, pool, p);
    PassGoesOn(fleet, account, read, run, horizon, pool, d, p, q, entry);
    CoverageStays(fleet, account, read, run, horizon, pool, q, |run|, d, read(entry.event).value);
    assert run[..|run|] == run;
  }

  // ---------- passes come about ----------

  lemma {:induction false} IterateLast<W, S>(step: (W, S) -> W, w: W, ss: seq<S>)
    requires |ss| > 0
    ensures Iterate(step, w, ss) == step(Iterate(step, w, ss[..|ss| - 1]), ss[|ss| - 1])
    decreases |ss|
  {
    if |ss| > 1 {
      IterateLast(step, step(w, ss[0]), ss[1..]);
      assert ss[..|ss| - 1][1..] == ss[1..][..|ss[1..]| - 1];
    }
  }

  /** The syncs of the turns. */
  function SyncsOf(run: seq<Turn>): (r: seq<Sync>)
    ensures |r| == |run| && forall i :: 0 <= i < |r| ==> r[i] == run[i].sync
  {
    seq(|run|, i requires 0 <= i < |run| => run[i].sync)
  }

  /** Turns of one device in a row are its syncs one after another. */
  lemma {:induction false} SoloTurns(fleet: Fleet, account: Account, read: Event -> Option<Memory>, run: seq<Turn>,
                                     d: string)
    requires d in fleet.devices && forall i :: 0 <= i < |run| ==> run[i].deviceId == d
    ensures
      var after := Turns(fleet, account, read, run);
      var world := Syncs(World(fleet.docs, fleet.devices[d]), account.(deviceId := d), read, SyncsOf(run));
      d in after.devices && after.docs == world.docs && after.devices[d] == world.device
  {
    if |run| > 0 {
      var n := |run| - 1;
      SoloTurns(fleet, account, read, run[..n], d);
      IterateLast(Step(account.(deviceId := d), read), World(fleet.docs, fleet.devices[d]), SyncsOf(run));
      assert SyncsOf(run)[..n] == SyncsOf(run[..n]);
    } else {
      assert |SyncsOf(run)| == 0;
    }
  }

  lemma {:induction false} TurnsConcat(fleet: Fleet, account: Account, read: Event -> Option<Memory>,
                                       a: seq<Turn>, b: seq<Turn>)
    ensures Turns(fleet, account, read, a + b) == Turns(Turns(fleet, account, read, a), account, read, b)
  {
    if |b| == 0 {
      assert a + b == a;
    } else {
      TurnsConcat(fleet, account, read, a, b[..|b| - 1]);
      assert (a + b)[..|a + b| - 1] == a + b[..|b| - 1];
    }
  }

  lemma SoloCalm(events: seq<StoredEvent>, run: seq<Turn>, horizon: int, n: nat)
    requires CalmTurns(events, run, horizon) && n <= |run|
    ensures CalmRun(events, SyncsOf(run[..n]), horizon)
  {
  }

  lemma ForeignReadable(events: seq<StoredEvent>, read: Event -> Option<Memory>, pool: seq<Memory>, d: string)
    requires EventsSound(events, read, pool)
    ensures AllReadable(Foreign(events, d), read)
  {
    FilterElements(events, (entry: StoredEvent) => entry.event.sourceDeviceId != d);
    forall i | 0 <= i < |Foreign(events, d)|
      ensures read(Foreign(events, d)[i].event).Some?
    {
      assert Foreign(events, d)[i] in Foreign(events, d);
    }
  }

  lemma SoloSyncsDrain(world: World, own: Account, read: Event -> Option<Memory>, ss: seq<Sync>,
                       events: seq<StoredEvent>, horizon: int) returns (k: nat)
    requires HasBucket(world.docs, own, events) && CalmRun(events, ss, horizon)
    requires AllReadable(Foreign(events, own.deviceId), read) && world.device.cursor.None?
    requires |ss| > 0 && |events| <= Budget(ss)
    ensures 1 <= k <= |ss| && Syncs(world, own, read, ss[..k]).device.cursor.None?
  {
    SyncsDrain(world, own, read, ss, events, horizon);
    k :| 1 <= k <= |ss| && Drained(Syncs(world, own, read, ss[..k]), world.device.memory,
                                   Foreign(events, own.deviceId), read);
  }

  /** A device that takes turns in a row, with limits that add up to enough, completes a pass. */
  lemma SoloDrains(fleet: Fleet, account: Account, read: Event -> Option<Memory>, run: seq<Turn>,
                   horizon: int, pool: seq<Memory>, d: string, n: nat) returns (k: nat)
    requires Sound(fleet, account, read, run, horizon, pool) && d in fleet.devices && 0 < n <= |run|
    requires (forall i :: 0 <= i < n ==> run[i].deviceId == d) && fleet.devices[d].cursor.None?
    requires |EventsOf(fleet, account)| <= Budget(SyncsOf(run[..n]))
    ensures 1 <= k <= n
    ensures
      var after := Turns(fleet, account, read, run[..k]);
      d in after.devices && after.devices[d].cursor.None?
  {
    var ss := SyncsOf(run[..n]);
    SoloCalm(EventsOf(fleet, account), run, horizon, n);
    ForeignReadable(EventsOf(fleet, account), read, pool, d);
    k := SoloSyncsDrain(World(fleet.docs, fleet.devices[d]), account.(deviceId := d), read, ss,
                        EventsOf(fleet, account), horizon);
    SoloTurns(fleet, account, read, run[..k], d);
    assert SyncsOf(run[..k]) == ss[..k];
  }

  lemma PassFrom(fleet: Fleet, account: Account, read: Event -> Option<Memory>, run: seq<Turn>, d: string,
                 p: nat, k: nat)
    requires 0 < k && p + k <= |run| && run[p].deviceId == d
    requires
      var start := Turns(fleet, account, read, run[..p]);
      var end := Turns(start, account, read, run[p..][..k]);
      d in start.devices && start.devices[d].cursor.None? && d in end.devices && end.devices[d].cursor.None?
    ensures Pass(fleet, account, read, run, d, p, p + k)
  {
    TurnsConcat(fleet, account, read, run[..p], run[p..][..k]);
    assert run[..p] + run[p..][..k] == run[..p + k];
  }

  /** So such turns anywhere in a run are a pass. */
  lemma SoloPass(fleet: Fleet, account: Account, read: Event -> Option<Memory>, run: seq<Turn>,
                 horizon: int, pool: seq<Memory>, d: string, p: nat, n: nat)
    requires Sound(fleet, account, read, run, horizon, pool) && 0 < n && p + n <= |run|
    requires forall i :: p <= i < p + n ==> run[i].deviceId == d
    requires
      var start := Turns(fleet, account, read, run[..p]);
      && d in start.devices && start.devices[d].cursor.None?
      && |EventsOf(start, account)| <= Budget(SyncsOf(run[p..p + n]))
    ensures exists q :: p < q <= p + n && Pass(fleet, account, read, run, d, p, q)
  {
    SoundAt(fleet, account, read, run, horizon, pool, p);
    assert run[p..][..n] == run[p..p + n];
    var k := SoloDrains(Turns(fleet, account, read, run[..p]), account, read, run[p..], horizon, pool, d, n);
    PassFrom(fleet, account, read, run, d, p, k);
  }

  // ---------- convergence ----------

  /** The pool is what the devices and the bucket start with. */
  ghost predicate IsPool(pool: seq<Memory>, fleet: Fleet, account: Account, read: Event -> Option<Memory>) {
    forall x :: x in pool ==>
      || (exists d :: d in fleet.devices && fleet.devices[d].memory == x)
      || (exists entry :: entry in EventsOf(fleet, account) && read(entry.event) == Some(x))
  }

  /** Each device holds what it uploaded before. */
  ghost predicate HoldsOwn(fleet: Fleet, account: Account, read: Event -> Option<Memory>) {
    forall entry :: entry in EventsOf(fleet, account) && entry.event.sourceDeviceId in fleet.devices
                    && read(entry.event).Some? ==>
      Saturated(fleet.devices[entry.event.sourceDeviceId].memory, read(entry.event).value)
  }

  /** Up to turn T each device has uploaded, and from then on each has read the bucket from end to end. */
  ghost predicate UploadedThenRead(fleet: Fleet, account: Account, read: Event -> Option<Memory>, run: seq<Turn>,
                                   T: nat)
  {
    && T <= |run|
    && (forall d :: d in fleet.devices ==> TookTurn(run, d, 0, T))
    && (forall d :: d in fleet.devices ==> exists p, q :: T <= p && Pass(fleet, account, read, run, d, p, q))
  }

  /** A device goes on to hold what it held at the start. */
  lemma StillHasOwn(fleet: Fleet, account: Account, read: Event -> Option<Memory>, run: seq<Turn>,
                    horizon: int, pool: seq<Memory>, k: nat, d: string)
    requires Sound(fleet, account, read, run, horizon, pool) && k <= |run| && d in fleet.devices
    ensures d in Turns(fleet, account, read, run[..k]).devices
    ensures Saturated(Turns(fleet, account, read, run[..k]).devices[d].memory, fleet.devices[d].memory)
  {
    SelfSaturated(fleet.devices[d].memory);
    CoverageStays(fleet, account, read, run, horizon, pool, 0, k, d, fleet.devices[d].memory);
  }

  /** What a device uploads in a turn, the others find, and it holds what the device held at the start. */
  lemma UploadIsThere(fleet: Fleet, account: Account, read: Event -> Option<Memory>, run: seq<Turn>,
                      horizon: int, pool: seq<Memory>, i: nat) returns (entry: StoredEvent)
    requires Sound(fleet, account, read, run, horizon, pool) && i < |run| && run[i].deviceId in fleet.devices
    ensures entry in EventsOf(Turns(fleet, account, read, run[..i + 1]), account)
    ensures entry.event.sourceDeviceId == run[i].deviceId
    ensures read(entry.event).Some? && Saturated(read(entry.event).value, fleet.devices[run[i].deviceId].memory)
  {
    var before, d := Turns(fleet, account, read, run[..i]), run[i].deviceId;
    NextTurn(fleet, account, read, run, horizon, pool, i);
    StillHasOwn(fleet, account, read, run, horizon, pool, i, d);
    entry := Uploading(run[i].sync, d, before.devices[d].memory);
    UploadElements(EventsOf(before, account), entry);
  }

  /** What a device uploaded before another one's pass, that one has in the end. */
  lemma HasOfOther(fleet: Fleet, account: Account, read: Event -> Option<Memory>, run: seq<Turn>,
                   horizon: int, pool: seq<Memory>, d: string, i: nat, p: nat, q: nat)
    requires Sound(fleet, account, read, run, horizon, pool) && d in fleet.devices
    requires i < p <= |run| && run[i].deviceId != d && run[i].deviceId in fleet.devices
    requires Pass(fleet, account, read, run, d, p, q)
    ensures
      var last := Turns(fleet, account, read, run);
      d in last.devices && Saturated(last.devices[d].memory, fleet.devices[run[i].deviceId].memory)
  {
    var entry := UploadIsThere(fleet, account, read, run, horizon, pool, i);
    EventStays(fleet, account, read, run, horizon, pool, i + 1, p, entry);
    PassMerges(fleet, account, read, run, horizon, pool, d, p, q, entry);
    SaturatedThrough(Turns(fleet, account, read, run).devices[d].memory, read(entry.event).value,
                     fleet.devices[run[i].deviceId].memory);
  }

  /** So in the end a device has everything of each memory of the pool. */
  lemma HasOfDevice(fleet: Fleet, account: Account, read: Event -> Option<Memory>, run: seq<Turn>,
                    horizon: int, pool: seq<Memory>, T: nat, d: string, e: string)
    requires Sound(fleet, account, read, run, horizon, pool)
    requires UploadedThenRead(fleet, account, read, run, T) && d in fleet.devices && e in fleet.devices
    ensures
      var last := Turns(fleet, account, read, run);
      d in last.devices && Saturated(last.devices[d].memory, fleet.devices[e].memory)
  {
    if d == e {
      StillHasOwn(fleet, account, read, run, horizon, pool, |run|, d);
      assert run[..|run|] == run;
    } else {
      var i :| 0 <= i < T && i < |run| && run[i].deviceId == e;
      var p, q :| T <= p && Pass(fleet, account, read, run, d, p, q);
      HasOfOther(fleet, account, read, run, horizon, pool, d, i, p, q);
    }
  }

  lemma HasOfBucket(fleet: Fleet, account: Account, read: Event -> Option<Memory>, run: seq<Turn>,
                    horizon: int, pool: seq<Memory>, T: nat, d: string, entry: StoredEvent)
    requires Sound(fleet, account, read, run, horizon, pool) && HoldsOwn(fleet, account, read)
    requires UploadedThenRead(fleet, account, read, run, T) && d in fleet.devices
    requires entry in EventsOf(fleet, account)
    ensures
      var last := Turns(fleet, account, read, run);
      && d in last.devices && read(entry.event).Some?
      && Saturated(last.devices[d].memory, read(entry.event).value)
  {
    if entry.event.sourceDeviceId == d {
      CoverageStays(fleet, account, read, run, horizon, pool, 0, |run|, d, read(entry.event).value);
      assert run[..|run|] == run;
    } else {
      var p, q :| T <= p && Pass(fleet, account, read, run, d, p, q);
      EventStays(fleet, account, read, run, horizon, pool, 0, p, entry);
      PassMerges(fleet, account, read, run, horizon, pool, d, p, q, entry);
    }
  }

  lemma HasOfPool(fleet: Fleet, account: Account, read: Event -> Option<Memory>, run: seq<Turn>,
                  horizon: int, pool: seq<Memory>, T: nat, d: string, x: Memory)
    requires Sound(fleet, account, read, run, horizon, pool) && HoldsOwn(fleet, account, read)
    requires IsPool(pool, fleet, account, read) && x in pool
    requires UploadedThenRead(fleet, account, read, run, T) && d in fleet.devices
    ensures
      var last := Turns(fleet, account, read, run);
      d in last.devices && Saturated(last.devices[d].memory, x)
  {
    if e :| e in fleet.devices && fleet.devices[e].memory == x {
      HasOfDevice(fleet, account, read, run, horizon, pool, T, d, e);
    } else {
      var entry :| entry in EventsOf(fleet, account) && read(entry.event) == Some(x);
      HasOfBucket(fleet, account, read, run, horizon, pool, T, d, entry);
    }
  }

  lemma MadeOfPool(fleet: Fleet, account: Account, read: Event -> Option<Memory>, run: seq<Turn>,
                   horizon: int, pool: seq<Memory>, d: string)
    requires Sound(fleet, account, read, run, horizon, pool) && d in Turns(fleet, account, read, run).devices
    ensures Made(Turns(fleet, account, read, run).devices[d].memory, pool)
  {
    SoundAt(fleet, account, read, run, horizon, pool, |run|);
    assert run[..|run|] == run;
  }

  ghost predicate SameContent(a: Memory, b: Memory) {
    && (forall t :: t in a.commonTags <==> t in b.commonTags)
    && PeerMap(a) == PeerMap(b) && InteractionMap(a) == InteractionMap(b)
  }

  /** Two merged lists that each cover the values both were made from are the same map. */
  lemma SameMap<T>(a: seq<T>, b: seq<T>, all: seq<T>, id: T -> string, time: T -> int)
    requires TimesNameValues([], all, id, time)
    requires (forall x :: x in a ==> x in all) && (forall x :: x in b ==> x in all)
    requires forall x :: x in all ==> Covers(ByName(a, id), x, id, time) && Covers(ByName(b, id), x, id, time)
    ensures ByName(a, id) == ByName(b, id)
  {
    var m, w := ByName(a, id), ByName(b, id);
    SameEntries(a, b, all, id, time);
    SameEntries(b, a, all, id, time);
  }

  lemma SameEntries<T>(a: seq<T>, b: seq<T>, all: seq<T>, id: T -> string, time: T -> int)
    requires TimesNameValues([], all, id, time)
    requires (forall x :: x in a ==> x in all) && (forall x :: x in b ==> x in all)
    requires forall x :: x in all ==> Covers(ByName(a, id), x, id, time) && Covers(ByName(b, id), x, id, time)
    ensures forall n :: n in ByName(a, id) ==> n in ByName(b, id) && ByName(a, id)[n] == ByName(b, id)[n]
  {
    var m, w := ByName(a, id), ByName(b, id);
    forall n | n in m
      ensures n in w && m[n] == w[n]
    {
      ByNameOfIndex(a, id, n);
      ByNameOfIndex(b, id, n);
      assert m[n] in a && id(m[n]) == n;
      assert Covers(w, m[n], id, time);
      assert w[n] in b && id(w[n]) == n;
      assert Covers(m, w[n], id, time);
      assert m[n] in [] + all && w[n] in [] + all;
    }
  }

  lemma PoolCovered(m: Memory, pool: seq<Memory>)
    requires Made(m, pool) && forall x :: x in pool ==> Saturated(m, x)
    ensures forall t :: t in m.commonTags <==> t in AllTags(pool)
    ensures forall p :: p in AllPeers(pool) ==> Covers(PeerMap(m), p, PeerIdOf, LastSeen)
    ensures forall x :: x in AllInteractions(pool) ==> Covers(InteractionMap(m), x, InteractionPeer, LastUpdated)
  {
    AllMembers(pool);
    forall i | 0 <= i < |pool|
      ensures Saturated(m, pool[i])
    {
      assert pool[i] in pool;
    }
    forall p | p in AllPeers(pool)
      ensures Covers(PeerMap(m), p, PeerIdOf, LastSeen)
    {
      var i :| 0 <= i < |pool| && p in pool[i].discoveredPeers;
      var k :| 0 <= k < |pool[i].discoveredPeers| && pool[i].discoveredPeers[k] == p;
    }
    forall x | x in AllInteractions(pool)
      ensures Covers(InteractionMap(m), x, InteractionPeer, LastUpdated)
    {
      var i :| 0 <= i < |pool| && x in pool[i].interactions;
      var k :| 0 <= k < |pool[i].interactions| && pool[i].interactions[k] == x;
    }
  }

  lemma SamePool(a: Memory, b: Memory, pool: seq<Memory>)
    requires Made(a, pool) && Made(b, pool)
    requires forall x :: x in pool ==> Saturated(a, x) && Saturated(b, x)
    requires TimesNameValues([], AllPeers(pool), PeerIdOf, LastSeen)
    requires TimesNameValues([], AllInteractions(pool), InteractionPeer, LastUpdated)
    ensures SameContent(a, b)
  {
    PoolCovered(a, pool);
    PoolCovered(b, pool);
    SameMap(a.discoveredPeers, b.discoveredPeers, AllPeers(pool), PeerIdOf, LastSeen);
    SameMap(a.interactions, b.interactions, AllInteractions(pool), InteractionPeer, LastUpdated);
  }

  /**
    Any number of devices that sync in any interleaving, with any page limits, and each of which uploads
    its memory as it is at its turn: when each has uploaded by some turn, and each has read the bucket
    from end to end since, they all hold the same tags, peers and interactions, and these are all there
    was on any of them or in the bucket, the newest entry of each peer. (Nothing expires or is evicted
    meanwhile, and equal (peer, time) pairs carry equal values.)
  */
  lemma DevicesConverge(fleet: Fleet, account: Account, read: Event -> Option<Memory>, run: seq<Turn>,
                        horizon: int, pool: seq<Memory>, T: nat)
    requires Sound(fleet, account, read, run, horizon, pool) && HoldsOwn(fleet, account, read)
    requires IsPool(pool, fleet, account, read)
    requires TimesNameValues([], AllPeers(pool), PeerIdOf, LastSeen)
    requires TimesNameValues([], AllInteractions(pool), InteractionPeer, LastUpdated)
    requires UploadedThenRead(fleet, account, read, run, T)
    ensures
      var last := Turns(fleet, account, read, run);
      && last.devices.Keys == fleet.devices.Keys
      && (forall d, x :: d in last.devices && x in pool ==> Saturated(last.devices[d].memory, x))
      && (forall d :: d in last.devices ==> Made(last.devices[d].memory, pool))
      && (forall d, e :: d in last.devices && e in last.devices ==>
            SameContent(last.devices[d].memory, last.devices[e].memory))
  {
    var last := Turns(fleet, account, read, run);
    DevicesStay(fleet, account, read, run);
    forall d | d in last.devices
      ensures Made(last.devices[d].memory, pool) && forall x :: x in pool ==> Saturated(last.devices[d].memory, x)
    {
      MadeOfPool(fleet, account, read, run, horizon, pool, d);
      forall x | x in pool
        ensures Saturated(last.devices[d].memory, x)
      {
        HasOfPool(fleet, account, read, run, horizon, pool, T, d, x);
      }
    }
    forall d, e | d in last.devices && e in last.devices
      ensures SameContent(last.devices[d].memory, last.devices[e].memory)
    {
      SamePool(last.devices[d].memory, last.devices[e].memory, pool);
    }
  }
}
