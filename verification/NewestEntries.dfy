/**
  What merging, folding and syncing memories leaves of each peer and each interaction, by the times the
  entries carry: the entry seen or updated last.
*/
module NewestEntries {
  import opened Wrappers
  import opened Keys
  import opened NamedList
  import opened LastWriterWins
  import opened MemoryMerge
  import opened ActivitySync
  import opened Convergence
  import ActivityFeed

  /** The map of peers has the first entry of each peer on the list. */
  lemma PeersByList(m: Memory, n: string)
    ensures n in PeerMap(m) <==> exists i :: 0 <= i < |m.discoveredPeers| && m.discoveredPeers[i].peerId == n
    ensures n in PeerMap(m) ==>
              exists i :: && 0 <= i < |m.discoveredPeers| && m.discoveredPeers[i] == PeerMap(m)[n]
                          && m.discoveredPeers[i].peerId == n
                          && forall j :: 0 <= j < i ==> m.discoveredPeers[j].peerId != n
  {
    ByNameOfIndex(m.discoveredPeers, PeerIdOf, n);
    var i := IndexOf(m.discoveredPeers, PeerIdOf, n);
    assert forall j :: 0 <= j < i ==> PeerIdOf(m.discoveredPeers[j]) == m.discoveredPeers[j].peerId;
  }

  /** And likewise for interactions. */
  lemma InteractionsByList(m: Memory, n: string)
    ensures n in InteractionMap(m) <==> exists i :: 0 <= i < |m.interactions| && m.interactions[i].peerId == n
    ensures n in InteractionMap(m) ==>
              exists i :: && 0 <= i < |m.interactions| && m.interactions[i] == InteractionMap(m)[n]
                          && m.interactions[i].peerId == n
                          && forall j :: 0 <= j < i ==> m.interactions[j].peerId != n
  {
    ByNameOfIndex(m.interactions, InteractionPeer, n);
    var i := IndexOf(m.interactions, InteractionPeer, n);
    assert forall j :: 0 <= j < i ==> InteractionPeer(m.interactions[j]) == m.interactions[j].peerId;
  }

  // ---------- one merge ----------

  /**
    The entry of each peer is the local one, or one of the remote list that was seen strictly later; no
    local or remote entry was seen later than it.
  */
  ghost predicate PeersMerged(local: map<string, Peer>, remote: seq<Peer>, after: map<string, Peer>) {
    && (forall n :: n in local ==> n in after && local[n].lastSeenAt <= after[n].lastSeenAt)
    && (forall p :: p in remote ==> p.peerId in after && p.lastSeenAt <= after[p.peerId].lastSeenAt)
    && (forall n :: n in after ==>
          || (n in local && after[n] == local[n])
          || (after[n] in remote && after[n].peerId == n && (n in local ==> local[n].lastSeenAt < after[n].lastSeenAt)))
  }

  ghost predicate InteractionsMerged(local: map<string, Interaction>, remote: seq<Interaction>,
                                     after: map<string, Interaction>)
  {
    && (forall n :: n in local ==> n in after && local[n].updatedAt <= after[n].updatedAt)
    && (forall x :: x in remote ==> x.peerId in after && x.updatedAt <= after[x.peerId].updatedAt)
    && (forall n :: n in after ==>
          || (n in local && after[n] == local[n])
          || (after[n] in remote && after[n].peerId == n && (n in local ==> local[n].updatedAt < after[n].updatedAt)))
  }

  /** A merged entry that is not the local one is newer. */
  lemma {:induction false} ReplacedByNewer<T>(list: seq<T>, remote: seq<T>, id: T -> string, time: T -> int, n: string)
    requires n in ByName(list, id)
    ensures
      var before, after := ByName(list, id), ByName(MergeAll(list, remote, id, time), id);
      n in after && (after[n] == before[n] || time(before[n]) < time(after[n]))
  {
    if remote != [] {
      var k := |remote| - 1;
      ReplacedByNewer(list, remote[..k], id, time, n);
      MergeOneByName(MergeAll(list, remote[..k], id, time), remote[k], id, time);
    }
  }

  lemma PeersOfMerge(list: seq<Peer>, remote: seq<Peer>)
    ensures PeersMerged(ByName(list, PeerIdOf), remote,
                        ByName(MergeAll(list, remote, PeerIdOf, LastSeen), PeerIdOf))
  {
    var local := ByName(list, PeerIdOf);
    var after := ByName(MergeAll(list, remote, PeerIdOf, LastSeen), PeerIdOf);
    MergeAllEffect(list, remote, PeerIdOf, LastSeen);
    forall p | p in remote
      ensures p.peerId in after && p.lastSeenAt <= after[p.peerId].lastSeenAt
    {
      var i :| 0 <= i < |remote| && remote[i] == p;
      assert Covers(after, remote[i], PeerIdOf, LastSeen);
    }
    forall n | n in local
      ensures n in after && local[n].lastSeenAt <= after[n].lastSeenAt
      ensures after[n] == local[n] || local[n].lastSeenAt < after[n].lastSeenAt
    {
      ReplacedByNewer(list, remote, PeerIdOf, LastSeen, n);
    }
    forall n | n in after
      ensures (n in local && after[n] == local[n]) || (after[n] in remote && after[n].peerId == n)
    {
      MergeAllOrigin(list, remote, PeerIdOf, LastSeen, n);
    }
  }

  lemma InteractionsOfMerge(list: seq<Interaction>, remote: seq<Interaction>)
    ensures InteractionsMerged(ByName(list, InteractionPeer), remote,
                               ByName(MergeAll(list, remote, InteractionPeer, LastUpdated), InteractionPeer))
  {
    var local := ByName(list, InteractionPeer);
    var after := ByName(MergeAll(list, remote, InteractionPeer, LastUpdated), InteractionPeer);
    MergeAllEffect(list, remote, InteractionPeer, LastUpdated);
    forall x | x in remote
      ensures x.peerId in after && x.updatedAt <= after[x.peerId].updatedAt
    {
      var i :| 0 <= i < |remote| && remote[i] == x;
      assert Covers(after, remote[i], InteractionPeer, LastUpdated);
    }
    forall n | n in local
      ensures n in after && local[n].updatedAt <= after[n].updatedAt
      ensures after[n] == local[n] || local[n].updatedAt < after[n].updatedAt
    {
      ReplacedByNewer(list, remote, InteractionPeer, LastUpdated, n);
    }
    forall n | n in after
      ensures (n in local && after[n] == local[n]) || (after[n] in remote && after[n].peerId == n)
    {
      MergeAllOrigin(list, remote, InteractionPeer, LastUpdated, n);
    }
  }

  /**
    The merge of a snapshot: of each peer and interaction the newer entry wins, the local one at equal
    times; tags are united, and sorted; the profile is the snapshot's iff the snapshot is newer.
  */
  lemma MergeKeepsNewest(local: Memory, remote: Memory)
    ensures
      var after := Merged(local, remote);
      && PeersMerged(PeerMap(local), remote.discoveredPeers, PeerMap(after))
      && InteractionsMerged(InteractionMap(local), remote.interactions, InteractionMap(after))
      && (forall t :: t in after.commonTags <==> t in local.commonTags || t in remote.commonTags)
      && (forall i, j :: 0 <= i < j < |after.commonTags| ==> TextLess(after.commonTags[i], after.commonTags[j]))
      && after.profile == (if remote.updatedAt > local.updatedAt then remote.profile else local.profile)
  {
    PeersOfMerge(local.discoveredPeers, remote.discoveredPeers);
    InteractionsOfMerge(local.interactions, remote.interactions);
    AddTagsElements(local.commonTags, remote.commonTags);
    SortDedupProperties(AddTags(local.commonTags, remote.commonTags));
  }

  /** Something that is not a tag order changed: the profile, a tag, a peer or an interaction. */
  ghost predicate ContentChanged(local: Memory, after: Memory) {
    || after.profile != local.profile
    || (exists t :: t in after.commonTags && t !in local.commonTags)
    || (exists n :: n in PeerMap(after)
                    && (n in PeerMap(local) ==> PeerMap(local)[n].lastSeenAt < PeerMap(after)[n].lastSeenAt))
    || (exists n :: n in InteractionMap(after)
                    && (n in InteractionMap(local) ==>
                          InteractionMap(local)[n].updatedAt < InteractionMap(after)[n].updatedAt))
  }

  /**
    A change is reported iff there is one, and the time of the memory moves on to the snapshot's iff
    there is one and the snapshot is newer.
  */
  lemma ChangeIsReported(local: Memory, remote: Memory)
    ensures Changes(local, remote) <==> ContentChanged(local, Merged(local, remote))
    ensures Merged(local, remote).updatedAt
            == if ContentChanged(local, Merged(local, remote)) && remote.updatedAt > local.updatedAt
               then remote.updatedAt else local.updatedAt
  {
    var after := Merged(local, remote);
    ChangesIffChanged(local, remote);
    if SomethingNewer(PeerMap(after), PeerMap(local), LastSeen) {
      var n :| n in PeerMap(after)
               && (n !in PeerMap(local) || LastSeen(PeerMap(local)[n]) < LastSeen(PeerMap(after)[n]));
      assert n in PeerMap(local) ==> PeerMap(local)[n].lastSeenAt < PeerMap(after)[n].lastSeenAt;
    }
    if SomethingNewer(InteractionMap(after), InteractionMap(local), LastUpdated) {
      var n :| n in InteractionMap(after)
               && (n !in InteractionMap(local)
                   || LastUpdated(InteractionMap(local)[n]) < LastUpdated(InteractionMap(after)[n]));
      assert n in InteractionMap(local) ==> InteractionMap(local)[n].updatedAt < InteractionMap(after)[n].updatedAt;
    }
  }

  /** Entries stay where they are; new peers come behind them. */
  lemma {:induction false} OrderStays<T>(list: seq<T>, remote: seq<T>, id: T -> string, time: T -> int, i: nat)
    requires i < |list|
    ensures i < |MergeAll(list, remote, id, time)| && id(MergeAll(list, remote, id, time)[i]) == id(list[i])
  {
    if remote != [] {
      OrderStays(list, remote[..|remote| - 1], id, time, i);
    }
  }

  lemma MergeKeepsOrder(local: Memory, remote: Memory)
    ensures
      var after := Merged(local, remote);
      && |local.discoveredPeers| <= |after.discoveredPeers| && |local.interactions| <= |after.interactions|
      && (forall i :: 0 <= i < |local.discoveredPeers| ==>
            after.discoveredPeers[i].peerId == local.discoveredPeers[i].peerId)
      && (forall i :: 0 <= i < |local.interactions| ==>
            after.interactions[i].peerId == local.interactions[i].peerId)
  {
    var peers := MergeAll(local.discoveredPeers, remote.discoveredPeers, PeerIdOf, LastSeen);
    var interactions := MergeAll(local.interactions, remote.interactions, InteractionPeer, LastUpdated);
    if local.discoveredPeers != [] {
      OrderStays(local.discoveredPeers, remote.discoveredPeers, PeerIdOf, LastSeen, |local.discoveredPeers| - 1);
    }
    if local.interactions != [] {
      OrderStays(local.interactions, remote.interactions, InteractionPeer, LastUpdated, |local.interactions| - 1);
    }
    forall i | 0 <= i < |local.discoveredPeers|
      ensures peers[i].peerId == local.discoveredPeers[i].peerId
    {
      OrderStays(local.discoveredPeers, remote.discoveredPeers, PeerIdOf, LastSeen, i);
    }
    forall i | 0 <= i < |local.interactions|
      ensures interactions[i].peerId == local.interactions[i].peerId
    {
      OrderStays(local.interactions, remote.interactions, InteractionPeer, LastUpdated, i);
    }
  }

  // ---------- many merges ----------

  /** Of each peer, the memory has an entry of the start or of the snapshots, none of which is newer. */
  ghost predicate NewestOf(m: Memory, local: Memory, snapshots: seq<Memory>) {
    && (forall n :: n in PeerMap(local) ==>
          n in PeerMap(m) && PeerMap(local)[n].lastSeenAt <= PeerMap(m)[n].lastSeenAt)
    && (forall s, p :: s in snapshots && p in s.discoveredPeers ==>
          p.peerId in PeerMap(m) && p.lastSeenAt <= PeerMap(m)[p.peerId].lastSeenAt)
    && (forall n :: n in PeerMap(m) ==>
          || (n in PeerMap(local) && PeerMap(m)[n] == PeerMap(local)[n])
          || (PeerMap(m)[n].peerId == n && exists s :: s in snapshots && PeerMap(m)[n] in s.discoveredPeers))
  }

  ghost predicate LatestOf(m: Memory, local: Memory, snapshots: seq<Memory>) {
    && (forall n :: n in InteractionMap(local) ==>
          n in InteractionMap(m) && InteractionMap(local)[n].updatedAt <= InteractionMap(m)[n].updatedAt)
    && (forall s, x :: s in snapshots && x in s.interactions ==>
          x.peerId in InteractionMap(m) && x.updatedAt <= InteractionMap(m)[x.peerId].updatedAt)
    && (forall n :: n in InteractionMap(m) ==>
          || (n in InteractionMap(local) && InteractionMap(m)[n] == InteractionMap(local)[n])
          || (InteractionMap(m)[n].peerId == n && exists s :: s in snapshots && InteractionMap(m)[n] in s.interactions))
  }

  /** Folding snapshots, in whatever order, leaves the newest entries of all of them and of the start. */
  lemma FoldKeepsNewest(local: Memory, snapshots: seq<Memory>)
    ensures NewestOf(Fold(local, snapshots), local, snapshots)
    ensures LatestOf(Fold(local, snapshots), local, snapshots)
    ensures forall t :: t in Fold(local, snapshots).commonTags
                        <==> t in local.commonTags || exists s :: s in snapshots && t in s.commonTags
  {
    FoldLists(local, snapshots);
    AllMembers(snapshots);
    var m := Fold(local, snapshots);
    PeersOfMerge(local.discoveredPeers, AllPeers(snapshots));
    InteractionsOfMerge(local.interactions, AllInteractions(snapshots));
    FoldedPeers(m, local, snapshots);
    FoldedInteractions(m, local, snapshots);
    forall t
      ensures t in AllTags(snapshots) <==> exists s :: s in snapshots && t in s.commonTags
    {
      if s :| s in snapshots && t in s.commonTags {
        var i :| 0 <= i < |snapshots| && snapshots[i] == s;
      }
    }
  }

  lemma FoldedPeers(m: Memory, local: Memory, snapshots: seq<Memory>)
    requires PeersMerged(PeerMap(local), AllPeers(snapshots), PeerMap(m))
    ensures NewestOf(m, local, snapshots)
  {
    AllMembers(snapshots);
    forall s, p | s in snapshots && p in s.discoveredPeers
      ensures p in AllPeers(snapshots)
    {
      var i :| 0 <= i < |snapshots| && snapshots[i] == s;
    }
    forall p | p in AllPeers(snapshots)
      ensures exists s :: s in snapshots && p in s.discoveredPeers
    {
      var i :| 0 <= i < |snapshots| && p in snapshots[i].discoveredPeers;
      assert snapshots[i] in snapshots;
    }
  }

  lemma FoldedInteractions(m: Memory, local: Memory, snapshots: seq<Memory>)
    requires InteractionsMerged(InteractionMap(local), AllInteractions(snapshots), InteractionMap(m))
    ensures LatestOf(m, local, snapshots)
  {
    AllMembers(snapshots);
    forall s, x | s in snapshots && x in s.interactions
      ensures x in AllInteractions(snapshots)
    {
      var i :| 0 <= i < |snapshots| && snapshots[i] == s;
    }
    forall x | x in AllInteractions(snapshots)
      ensures exists s :: s in snapshots && x in s.interactions
    {
      var i :| 0 <= i < |snapshots| && x in snapshots[i].interactions;
      assert snapshots[i] in snapshots;
    }
  }

  /** The memory holds all tags of the pool and of each peer the newest entries of it, and nothing else. */
  ghost predicate HoldsPool(m: Memory, pool: seq<Memory>) {
    && (forall t :: t in m.commonTags <==> exists x :: x in pool && t in x.commonTags)
    && (forall x, p :: x in pool && p in x.discoveredPeers ==>
          p.peerId in PeerMap(m) && p.lastSeenAt <= PeerMap(m)[p.peerId].lastSeenAt)
    && (forall p :: p in m.discoveredPeers ==> exists x :: x in pool && p in x.discoveredPeers)
    && (forall x, i :: x in pool && i in x.interactions ==>
          i.peerId in InteractionMap(m) && i.updatedAt <= InteractionMap(m)[i.peerId].updatedAt)
    && (forall i :: i in m.interactions ==> exists x :: x in pool && i in x.interactions)
  }

  lemma MadeHoldsPool(m: Memory, pool: seq<Memory>)
    requires Made(m, pool) && forall x :: x in pool ==> Saturated(m, x)
    ensures HoldsPool(m, pool)
  {
    AllMembers(pool);
    forall x, p | x in pool && p in x.discoveredPeers
      ensures p.peerId in PeerMap(m) && p.lastSeenAt <= PeerMap(m)[p.peerId].lastSeenAt
    {
      var k :| 0 <= k < |x.discoveredPeers| && x.discoveredPeers[k] == p;
      assert Covers(PeerMap(m), x.discoveredPeers[k], PeerIdOf, LastSeen);
    }
    forall x, i | x in pool && i in x.interactions
      ensures i.peerId in InteractionMap(m) && i.updatedAt <= InteractionMap(m)[i.peerId].updatedAt
    {
      var k :| 0 <= k < |x.interactions| && x.interactions[k] == i;
      assert Covers(InteractionMap(m), x.interactions[k], InteractionPeer, LastUpdated);
    }
  }

  /**
    When every device has uploaded and has then read the bucket from end to end, each holds, of every
    peer, the entry seen last and the interaction updated last that any of them or the bucket had.
  */
  lemma DevicesHoldNewest(fleet: Fleet, account: Account, read: ActivityFeed.Event -> Option<Memory>,
                          run: seq<Turn>, horizon: int, pool: seq<Memory>, T: nat)
    requires Sound(fleet, account, read, run, horizon, pool) && HoldsOwn(fleet, account, read)
    requires IsPool(pool, fleet, account, read)
    requires TimesNameValues([], AllPeers(pool), PeerIdOf, LastSeen)
    requires TimesNameValues([], AllInteractions(pool), InteractionPeer, LastUpdated)
    requires UploadedThenRead(fleet, account, read, run, T)
    ensures forall d :: d in fleet.devices ==>
              d in Turns(fleet, account, read, run).devices
              && HoldsPool(Turns(fleet, account, read, run).devices[d].memory, pool)
  {
    DevicesConverge(fleet, account, read, run, horizon, pool, T);
    var last := Turns(fleet, account, read, run);
    forall d | d in fleet.devices
      ensures d in last.devices && HoldsPool(last.devices[d].memory, pool)
    {
      MadeHoldsPool(last.devices[d].memory, pool);
    }
  }
}
