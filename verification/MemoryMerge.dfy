/**
  Merging a memory snapshot from another device into the local memory, and what folding and cycling
  such merges leads to.
*/
module MemoryMerge {
  import opened Wrappers
  import opened Keys
  import opened Sorting
  import opened NamedList
  import opened LastWriterWins

  datatype Profile = Profile(nickname: Option<string>, selfDescription: Option<string>, preferences: seq<string>)

  datatype Peer = Peer(peerId: string, tags: seq<string>, bodyPreview: Option<string>, lastSeenAt: int)

  datatype Interaction = Interaction(peerId: string, summary: string, updatedAt: int)

  /** A memory, as a snapshot carries it. The state of the sync itself is not merged. */
  datatype Memory = Memory(
    profile: Profile,
    commonTags: seq<string>,
    discoveredPeers: seq<Peer>,
    interactions: seq<Interaction>,
    updatedAt: int)

  function PeerIdOf(p: Peer): string { p.peerId }
  function LastSeen(p: Peer): int { p.lastSeenAt }
  function InteractionPeer(i: Interaction): string { i.peerId }
  function LastUpdated(i: Interaction): int { i.updatedAt }

  // ---------- tags ----------

  /** The remote tags that are new are appended, in order. */
  function AddTags(tags: seq<string>, remote: seq<string>): seq<string> {
    if remote == [] then tags
    else
      var n := |remote| - 1;
      var before := AddTags(tags, remote[..n]);
      if remote[n] in before then before else before + [remote[n]]
  }

  /** Of several equal neighbours, the first stays. */
  function Dedup(tags: seq<string>): seq<string>
    decreases |tags|
  {
    if |tags| <= 1 then tags
    else if tags[0] == tags[1] then Dedup([tags[0]] + tags[2..])
    else [tags[0]] + Dedup(tags[1..])
  }

  function SortDedup(tags: seq<string>): seq<string> {
    Dedup(Sort(tags, TextLess))
  }

  lemma TextTotalOrder()
    ensures TotalOrder(TextLess)
  {
    TextOrder();
  }

  lemma {:induction false} DedupStrict(tags: seq<string>)
    requires Sorted(tags, TextLess)
    ensures Strict(Dedup(tags), TextLess)
    ensures forall t :: t in Dedup(tags) <==> t in tags
    decreases |tags|
  {
    if |tags| > 1 {
      TextTotalOrder();
      if tags[0] == tags[1] {
        var rest := [tags[0]] + tags[2..];
        assert forall i :: 0 <= i < |rest| ==> rest[i] == tags[if i == 0 then 0 else i + 1];
        assert tags == [tags[0], tags[1]] + tags[2..];
        DedupStrict(rest);
      } else {
        DedupStrict(tags[1..]);
        assert tags == [tags[0]] + tags[1..];
        forall t | t in Dedup(tags[1..])
          ensures TextLess(tags[0], t)
        {
          var i :| 1 <= i < |tags| && tags[i] == t;
          assert TextLess(tags[0], tags[1]);
          assert !TextLess(tags[i], tags[1]) || i == 1;
        }
      }
    }
  }

  /** Sorting and removing duplicates gives the one strictly increasing list of the same tags. */
  lemma SortDedupProperties(tags: seq<string>)
    ensures Strict(SortDedup(tags), TextLess)
    ensures forall t :: t in SortDedup(tags) <==> t in tags
  {
    TextTotalOrder();
    SortSorted(tags, TextLess);
    SortElements(tags, TextLess);
    DedupStrict(Sort(tags, TextLess));
  }

  lemma SortDedupOfStrict(tags: seq<string>)
    requires Strict(tags, TextLess)
    ensures SortDedup(tags) == tags
  {
    SortDedupProperties(tags);
    TextTotalOrder();
    StrictUnique(SortDedup(tags), tags, TextLess);
  }

  lemma {:induction false} AddTagsElements(tags: seq<string>, remote: seq<string>)
    ensures forall t :: t in AddTags(tags, remote) <==> t in tags || t in remote
    ensures (forall t :: t in remote ==> t in tags) <==> AddTags(tags, remote) == tags
  {
    if remote != [] {
      var n := |remote| - 1;
      AddTagsElements(tags, remote[..n]);
      assert remote == remote[..n] + [remote[n]];
    }
  }

  // ---------- one merge ----------

  function MergedProfile(local: Memory, remote: Memory): Profile {
    if remote.updatedAt > local.updatedAt && local.profile != remote.profile then remote.profile else local.profile
  }

  /** What the merge reports as a change. */
  predicate Changes(local: Memory, remote: Memory) {
    || (remote.updatedAt > local.updatedAt && local.profile != remote.profile)
    || AddTags(local.commonTags, remote.commonTags) != local.commonTags
    || AnyChanges(local.discoveredPeers, remote.discoveredPeers, PeerIdOf, LastSeen)
    || AnyChanges(local.interactions, remote.interactions, InteractionPeer, LastUpdated)
  }

  function Merged(local: Memory, remote: Memory): Memory {
    Memory(
      MergedProfile(local, remote),
      SortDedup(AddTags(local.commonTags, remote.commonTags)),
      MergeAll(local.discoveredPeers, remote.discoveredPeers, PeerIdOf, LastSeen),
      MergeAll(local.interactions, remote.interactions, InteractionPeer, LastUpdated),
      if Changes(local, remote) && remote.updatedAt > local.updatedAt then remote.updatedAt else local.updatedAt)
  }

  /** The local memory file, which merges change in place. */
  class MemoryFile {
    var profile: Profile
    var commonTags: seq<string>
    var discoveredPeers: seq<Peer>
    var interactions: seq<Interaction>
    var updatedAt: int
    var activityCursor: Option<Key>

    constructor (memory: Memory, activityCursor: Option<Key>)
      ensures State() == memory && this.activityCursor == activityCursor
    {
      profile, commonTags, discoveredPeers := memory.profile, memory.commonTags, memory.discoveredPeers;
      interactions, updatedAt := memory.interactions, memory.updatedAt;
      this.activityCursor := activityCursor;
    }

    function State(): Memory
      reads this
    {
      Memory(profile, commonTags, discoveredPeers, interactions, updatedAt)
    }

    method MergeSnapshot(remote: Memory) returns (changed: bool)
      modifies this
      ensures State() == Merged(old(State()), remote)
      ensures changed == Changes(old(State()), remote)
      ensures activityCursor == old(activityCursor)
    {
      changed := false;
      if remote.updatedAt > updatedAt && profile != remote.profile {
        profile := remote.profile;
        changed := true;
      }
      var tagsChanged := MergeTags(remote.commonTags);
      var peersChanged := MergePeers(remote.discoveredPeers);
      var interactionsChanged := MergeInteractions(remote.interactions);
      changed := changed || tagsChanged || peersChanged || interactionsChanged;
      if changed && remote.updatedAt > updatedAt {
        updatedAt := remote.updatedAt;
      }
    }

    method MergeTags(remote: seq<string>) returns (changed: bool)
      modifies this`commonTags
      ensures commonTags == SortDedup(AddTags(old(commonTags), remote))
      ensures changed == (AddTags(old(commonTags), remote) != old(commonTags))
    {
      changed := false;
      for i := 0 to |remote|
        invariant commonTags == AddTags(old(commonTags), remote[..i])
        invariant |commonTags| >= |old(commonTags)|
        invariant changed == (commonTags != old(commonTags))
      {
        assert remote[..i + 1][..i] == remote[..i];
        if remote[i] !in commonTags {
          commonTags := commonTags + [remote[i]];
          changed := true;
        }
      }
      assert remote[..|remote|] == remote;
      commonTags := SortDedup(commonTags);
    }

    method MergePeers(remote: seq<Peer>) returns (changed: bool)
      modifies this`discoveredPeers
      ensures discoveredPeers == MergeAll(old(discoveredPeers), remote, PeerIdOf, LastSeen)
      ensures changed == AnyChanges(old(discoveredPeers), remote, PeerIdOf, LastSeen)
    {
      changed := false;
      for i := 0 to |remote|
        invariant discoveredPeers == MergeAll(old(discoveredPeers), remote[..i], PeerIdOf, LastSeen)
        invariant changed == AnyChanges(old(discoveredPeers), remote[..i], PeerIdOf, LastSeen)
      {
        assert remote[..i + 1][..i] == remote[..i];
        var k := IndexOf(discoveredPeers, PeerIdOf, PeerIdOf(remote[i]));
        if k == |discoveredPeers| {
          discoveredPeers := discoveredPeers + [remote[i]];
          changed := true;
        } else if remote[i].lastSeenAt > discoveredPeers[k].lastSeenAt {
          discoveredPeers := discoveredPeers[k := remote[i]];
          changed := true;
        }
      }
      assert remote[..|remote|] == remote;
    }

    method MergeInteractions(remote: seq<Interaction>) returns (changed: bool)
      modifies this`interactions
      ensures interactions == MergeAll(old(interactions), remote, InteractionPeer, LastUpdated)
      ensures changed == AnyChanges(old(interactions), remote, InteractionPeer, LastUpdated)
    {
      changed := false;
      for i := 0 to |remote|
        invariant interactions == MergeAll(old(interactions), remote[..i], InteractionPeer, LastUpdated)
        invariant changed == AnyChanges(old(interactions), remote[..i], InteractionPeer, LastUpdated)
      {
        assert remote[..i + 1][..i] == remote[..i];
        var k := IndexOf(interactions, InteractionPeer, InteractionPeer(remote[i]));
        if k == |interactions| {
          interactions := interactions + [remote[i]];
          changed := true;
        } else if remote[i].updatedAt > interactions[k].updatedAt {
          interactions := interactions[k := remote[i]];
          changed := true;
        }
      }
      assert remote[..|remote|] == remote;
    }
  }

  function PeerMap(m: Memory): map<string, Peer> {
    ByName(m.discoveredPeers, PeerIdOf)
  }

  function InteractionMap(m: Memory): map<string, Interaction> {
    ByName(m.interactions, InteractionPeer)
  }

  /** Nothing is forgotten and no time goes back. */
  ghost predicate NoOlder(after: Memory, before: Memory) {
    && before.updatedAt <= after.updatedAt
    && (forall t :: t in before.commonTags ==> t in after.commonTags)
    && AtLeastAsNew(PeerMap(after), PeerMap(before), LastSeen)
    && AtLeastAsNew(InteractionMap(after), InteractionMap(before), LastUpdated)
  }

  /** Merging never goes back: tags are only added, and no peer, interaction or memory time decreases. */
  lemma MergeNeverGoesBack(local: Memory, remote: Memory)
    ensures NoOlder(Merged(local, remote), local)
  {
    MergeAllEffect(local.discoveredPeers, remote.discoveredPeers, PeerIdOf, LastSeen);
    MergeAllEffect(local.interactions, remote.interactions, InteractionPeer, LastUpdated);
    AddTagsElements(local.commonTags, remote.commonTags);
    SortDedupProperties(AddTags(local.commonTags, remote.commonTags));
  }

  /** The reported flag is true iff something other than the order or the repeats of tags changed. */
  lemma ChangesIffChanged(local: Memory, remote: Memory)
    ensures Changes(local, remote) <==> Merged(local, remote) != local.(commonTags := SortDedup(local.commonTags))
    ensures Changes(local, remote) <==>
      var after := Merged(local, remote);
      || after.profile != local.profile
      || (exists t :: t in after.commonTags && t !in local.commonTags)
      || SomethingNewer(PeerMap(after), PeerMap(local), LastSeen)
      || SomethingNewer(InteractionMap(after), InteractionMap(local), LastUpdated)
  {
    var after := Merged(local, remote);
    MergeAllEffect(local.discoveredPeers, remote.discoveredPeers, PeerIdOf, LastSeen);
    MergeAllEffect(local.interactions, remote.interactions, InteractionPeer, LastUpdated);
    AddTagsElements(local.commonTags, remote.commonTags);
    SortDedupProperties(AddTags(local.commonTags, remote.commonTags));
    SortDedupProperties(local.commonTags);
    if AddTags(local.commonTags, remote.commonTags) != local.commonTags {
      var t :| t in remote.commonTags && t !in local.commonTags;
      assert t in after.commonTags;
    }
  }

  // ---------- saturation: everything but the profile of a snapshot is in ----------

  /** Merging the snapshot can change no tag, peer or interaction of the memory. */
  ghost predicate Saturated(m: Memory, s: Memory) {
    && (forall t :: t in s.commonTags ==> t in m.commonTags)
    && (forall i :: 0 <= i < |s.discoveredPeers| ==> Covers(PeerMap(m), s.discoveredPeers[i], PeerIdOf, LastSeen))
    && (forall i :: 0 <= i < |s.interactions| ==>
          Covers(InteractionMap(m), s.interactions[i], InteractionPeer, LastUpdated))
  }

  lemma MergeSaturates(local: Memory, remote: Memory)
    ensures Saturated(Merged(local, remote), remote)
    ensures Strict(Merged(local, remote).commonTags, TextLess)
  {
    MergeAllEffect(local.discoveredPeers, remote.discoveredPeers, PeerIdOf, LastSeen);
    MergeAllEffect(local.interactions, remote.interactions, InteractionPeer, LastUpdated);
    AddTagsElements(local.commonTags, remote.commonTags);
    SortDedupProperties(AddTags(local.commonTags, remote.commonTags));
  }

  lemma SaturationLasts(m: Memory, m': Memory, s: Memory)
    requires Saturated(m, s) && NoOlder(m', m)
    ensures Saturated(m', s)
  {
  }

  /** What merging a snapshot that is saturated but for the profile does. */
  lemma MergeSaturated(m: Memory, s: Memory)
    requires Saturated(m, s) && Strict(m.commonTags, TextLess)
    ensures Changes(m, s) <==> s.updatedAt > m.updatedAt && m.profile != s.profile
    ensures Merged(m, s) == if Changes(m, s) then m.(profile := s.profile, updatedAt := s.updatedAt) else m
  {
    MergeCovered(m.discoveredPeers, s.discoveredPeers, PeerIdOf, LastSeen);
    MergeCovered(m.interactions, s.interactions, InteractionPeer, LastUpdated);
    AddTagsElements(m.commonTags, s.commonTags);
    SortDedupOfStrict(m.commonTags);
  }

  /** Merging the same snapshot again reports no change and changes nothing, for all inputs. */
  lemma MergeIsIdempotent(local: Memory, remote: Memory)
    ensures !Changes(Merged(local, remote), remote)
    ensures Merged(Merged(local, remote), remote) == Merged(local, remote)
  {
    MergeSaturates(local, remote);
    MergeSaturated(Merged(local, remote), remote);
  }

  // ---------- folding ----------

  /** Merging snapshots one after another. */
  function Fold(local: Memory, snapshots: seq<Memory>): Memory {
    if snapshots == [] then local
    else Merged(Fold(local, snapshots[..|snapshots| - 1]), snapshots[|snapshots| - 1])
  }

  lemma FoldAppend(memory: Memory, snapshots: seq<Memory>, s: Memory)
    ensures Fold(memory, snapshots + [s]) == Merged(Fold(memory, snapshots), s)
  {
    var all := snapshots + [s];
    assert all[..|all| - 1] == snapshots;
  }

  lemma FoldConcatStep(m: Memory, a: seq<Memory>, front: seq<Memory>, s: Memory)
    requires Fold(m, a + front) == Fold(Fold(m, a), front)
    ensures Fold(m, a + (front + [s])) == Fold(Fold(m, a), front + [s])
  {
    assert (a + front) + [s] == a + (front + [s]);
    FoldAppend(m, a + front, s);
    FoldAppend(Fold(m, a), front, s);
  }

  lemma {:induction false} FoldConcat(m: Memory, a: seq<Memory>, b: seq<Memory>)
    ensures Fold(m, a + b) == Fold(Fold(m, a), b)
  {
    if b == [] {
      assert a + b == a;
    } else {
      var front, s := b[..|b| - 1], b[|b| - 1];
      FoldConcat(m, a, front);
      FoldConcatStep(m, a, front, s);
      assert front + [s] == b;
    }
  }

  lemma {:induction false} FoldNeverGoesBack(local: Memory, snapshots: seq<Memory>)
    ensures NoOlder(Fold(local, snapshots), local)
  {
    if snapshots != [] {
      FoldNeverGoesBack(local, snapshots[..|snapshots| - 1]);
      MergeNeverGoesBack(Fold(local, snapshots[..|snapshots| - 1]), snapshots[|snapshots| - 1]);
    }
  }

  function AllTags(snapshots: seq<Memory>): seq<string> {
    if snapshots == [] then [] else AllTags(snapshots[..|snapshots| - 1]) + snapshots[|snapshots| - 1].commonTags
  }

  function AllPeers(snapshots: seq<Memory>): seq<Peer> {
    if snapshots == [] then [] else AllPeers(snapshots[..|snapshots| - 1]) + snapshots[|snapshots| - 1].discoveredPeers
  }

  function AllInteractions(snapshots: seq<Memory>): seq<Interaction> {
    if snapshots == [] then []
    else AllInteractions(snapshots[..|snapshots| - 1]) + snapshots[|snapshots| - 1].interactions
  }

  /** A fold merges the lists of all snapshots in turn. */
  lemma {:induction false} FoldLists(local: Memory, snapshots: seq<Memory>)
    ensures
      var m := Fold(local, snapshots);
      && m.discoveredPeers == MergeAll(local.discoveredPeers, AllPeers(snapshots), PeerIdOf, LastSeen)
      && m.interactions == MergeAll(local.interactions, AllInteractions(snapshots), InteractionPeer, LastUpdated)
      && (forall t :: t in m.commonTags <==> t in local.commonTags || t in AllTags(snapshots))
      && (snapshots != [] ==> Strict(m.commonTags, TextLess))
  {
    if snapshots != [] {
      var n := |snapshots| - 1;
      var prior, s := Fold(local, snapshots[..n]), snapshots[n];
      FoldLists(local, snapshots[..n]);
      MergeAllConcat(local.discoveredPeers, AllPeers(snapshots[..n]), s.discoveredPeers, PeerIdOf, LastSeen);
      MergeAllConcat(local.interactions, AllInteractions(snapshots[..n]), s.interactions, InteractionPeer, LastUpdated);
      AddTagsElements(prior.commonTags, s.commonTags);
      SortDedupProperties(AddTags(prior.commonTags, s.commonTags));
    }
  }

  lemma {:induction false} AllMembers(snapshots: seq<Memory>)
    ensures forall t :: t in AllTags(snapshots) <==> exists i :: 0 <= i < |snapshots| && t in snapshots[i].commonTags
    ensures forall p :: p in AllPeers(snapshots) <==>
              exists i :: 0 <= i < |snapshots| && p in snapshots[i].discoveredPeers
    ensures forall x :: x in AllInteractions(snapshots) <==>
              exists i :: 0 <= i < |snapshots| && x in snapshots[i].interactions
  {
    if snapshots != [] {
      var n := |snapshots| - 1;
      AllMembers(snapshots[..n]);
      assert forall i :: 0 <= i < n ==> snapshots[..n][i] == snapshots[i];
    }
  }

  /** The two lists hold the same snapshots, in any order and any number of times. */
  ghost predicate SameSnapshots(a: seq<Memory>, b: seq<Memory>) {
    (forall i :: 0 <= i < |a| ==> a[i] in b) && (forall i :: 0 <= i < |b| ==> b[i] in a)
  }

  lemma SameMembers(a: seq<Memory>, b: seq<Memory>)
    requires forall i :: 0 <= i < |a| ==> a[i] in b
    ensures forall t :: t in AllTags(a) ==> t in AllTags(b)
    ensures forall p :: p in AllPeers(a) ==> p in AllPeers(b)
    ensures forall x :: x in AllInteractions(a) ==> x in AllInteractions(b)
  {
    AllMembers(a);
    AllMembers(b);
    forall t | t in AllTags(a)
      ensures t in AllTags(b)
    {
      var i :| 0 <= i < |a| && t in a[i].commonTags;
      assert a[i] in b;
    }
    forall p | p in AllPeers(a)
      ensures p in AllPeers(b)
    {
      var i :| 0 <= i < |a| && p in a[i].discoveredPeers;
      assert a[i] in b;
    }
    forall x | x in AllInteractions(a)
      ensures x in AllInteractions(b)
    {
      var i :| 0 <= i < |a| && x in a[i].interactions;
      assert a[i] in b;
    }
  }

  /**
    Folding snapshots: the tags, the peer map and the interaction map depend only on the start and on
    the set of snapshots, not on their order or repeats, when equal (peer, time) pairs carry equal
    summaries.
  */
  lemma FoldOrderIrrelevant(local: Memory, a: seq<Memory>, b: seq<Memory>)
    requires SameSnapshots(a, b)
    requires TimesNameValues(local.discoveredPeers, AllPeers(a), PeerIdOf, LastSeen)
    requires TimesNameValues(local.interactions, AllInteractions(a), InteractionPeer, LastUpdated)
    ensures Fold(local, a).commonTags == Fold(local, b).commonTags
    ensures PeerMap(Fold(local, a)) == PeerMap(Fold(local, b))
    ensures InteractionMap(Fold(local, a)) == InteractionMap(Fold(local, b))
  {
    FoldLists(local, a);
    FoldLists(local, b);
    SameMembers(a, b);
    SameMembers(b, a);
    MergeOrderIrrelevant(local.discoveredPeers, AllPeers(a), AllPeers(b), PeerIdOf, LastSeen);
    MergeOrderIrrelevant(local.interactions, AllInteractions(a), AllInteractions(b), InteractionPeer, LastUpdated);
    assert a != [] ==> a[0] in b;
    assert b != [] ==> b[0] in a;
    if a != [] {
      TextTotalOrder();
      StrictUnique(Fold(local, a).commonTags, Fold(local, b).commonTags, TextLess);
    }
  }

  // ---------- cycling ----------

  /** Passing over the list of snapshots again and again. */
  function Passes(local: Memory, snapshots: seq<Memory>, k: nat): Memory
    decreases k
  {
    if k == 0 then local else Passes(Fold(local, snapshots), snapshots, k - 1)
  }

  /** No listed snapshot changes the memory. */
  ghost predicate Stable(m: Memory, snapshots: seq<Memory>) {
    forall i :: 0 <= i < |snapshots| ==> Merged(m, snapshots[i]) == m && !Changes(m, snapshots[i])
  }

  ghost predicate SaturatedAll(m: Memory, snapshots: seq<Memory>) {
    Strict(m.commonTags, TextLess) && forall i :: 0 <= i < |snapshots| ==> Saturated(m, snapshots[i])
  }

  /** How many of the snapshots are newer than a time. */
  function Newer(snapshots: seq<Memory>, time: int): nat {
    if snapshots == [] then 0
    else Newer(snapshots[..|snapshots| - 1], time) + if snapshots[|snapshots| - 1].updatedAt > time then 1 else 0
  }

  lemma {:induction false} NewerBounds(snapshots: seq<Memory>, time: int, later: int)
    requires time <= later
    ensures Newer(snapshots, later) <= Newer(snapshots, time) <= |snapshots|
    ensures forall i :: 0 <= i < |snapshots| && time < snapshots[i].updatedAt <= later ==>
              Newer(snapshots, later) < Newer(snapshots, time)
  {
    if snapshots != [] {
      NewerBounds(snapshots[..|snapshots| - 1], time, later);
    }
  }

  lemma {:induction false} FoldSaturates(local: Memory, snapshots: seq<Memory>)
    ensures forall i :: 0 <= i < |snapshots| ==> Saturated(Fold(local, snapshots), snapshots[i])
    ensures snapshots != [] ==> SaturatedAll(Fold(local, snapshots), snapshots)
  {
    if snapshots != [] {
      var n := |snapshots| - 1;
      var prior := Fold(local, snapshots[..n]);
      FoldSaturates(local, snapshots[..n]);
      MergeNeverGoesBack(prior, snapshots[n]);
      MergeSaturates(prior, snapshots[n]);
      forall i | 0 <= i < |snapshots|
        ensures Saturated(Fold(local, snapshots), snapshots[i])
      {
        if i < n {
          assert Saturated(prior, snapshots[..n][i]);
          SaturationLasts(prior, Fold(local, snapshots), snapshots[i]);
        }
      }
    }
  }

  /** The first k snapshots would not change the memory. */
  ghost predicate Quiet(m: Memory, snapshots: seq<Memory>, k: nat) {
    forall i :: 0 <= i < k <= |snapshots| ==> Merged(m, snapshots[i]) == m && !Changes(m, snapshots[i])
  }

  /** Profile and time moved on to those of one of the first k snapshots, newer than before. */
  ghost predicate Advanced(m: Memory, after: Memory, snapshots: seq<Memory>, k: nat) {
    m.updatedAt < after.updatedAt
    && exists i :: 0 <= i < k <= |snapshots|
                   && snapshots[i].updatedAt == after.updatedAt && snapshots[i].profile == after.profile
  }

  /** Merging one listed snapshot once everything but profiles is in. */
  lemma StepSaturated(m: Memory, snapshots: seq<Memory>, k: nat)
    requires SaturatedAll(m, snapshots) && k < |snapshots|
    ensures SaturatedAll(Merged(m, snapshots[k]), snapshots)
    ensures if Changes(m, snapshots[k]) then Advanced(m, Merged(m, snapshots[k]), snapshots, k + 1)
            else Merged(m, snapshots[k]) == m
  {
    var s := snapshots[k];
    MergeSaturated(m, s);
    MergeNeverGoesBack(m, s);
    forall i | 0 <= i < |snapshots|
      ensures Saturated(Merged(m, s), snapshots[i])
    {
      SaturationLasts(m, Merged(m, s), snapshots[i]);
    }
  }

  /** What a pass over the first k snapshots makes of a memory: nothing at all, or an advance. */
  ghost predicate PassEffect(m: Memory, after: Memory, snapshots: seq<Memory>, k: nat) {
    SaturatedAll(after, snapshots) && ((after == m && Quiet(m, snapshots, k)) || Advanced(m, after, snapshots, k))
  }

  lemma PassStep(m: Memory, prior: Memory, snapshots: seq<Memory>, k: nat)
    requires PassEffect(m, prior, snapshots, k) && k < |snapshots|
    ensures PassEffect(m, Merged(prior, snapshots[k]), snapshots, k + 1)
  {
    var after := Merged(prior, snapshots[k]);
    StepSaturated(prior, snapshots, k);
    if Changes(prior, snapshots[k]) {
      assert Advanced(m, after, snapshots, k + 1);
    } else {
      assert after == prior;
    }
  }

  lemma FoldPrefix(m: Memory, snapshots: seq<Memory>, k: nat)
    requires 0 < k <= |snapshots|
    ensures Fold(m, snapshots[..k]) == Merged(Fold(m, snapshots[..k - 1]), snapshots[k - 1])
  {
    assert snapshots[..k][..k - 1] == snapshots[..k - 1];
  }

  lemma PassNothing(m: Memory, snapshots: seq<Memory>)
    requires SaturatedAll(m, snapshots)
    ensures Fold(m, snapshots[..0]) == m && PassEffect(m, m, snapshots, 0)
  {
  }

  /** A pass over a prefix of the list, once everything but profiles is in. */
  lemma {:induction false} PassSaturated(m: Memory, snapshots: seq<Memory>, k: nat)
    requires SaturatedAll(m, snapshots) && k <= |snapshots|
    ensures PassEffect(m, Fold(m, snapshots[..k]), snapshots, k)
  {
    if k == 0 {
      PassNothing(m, snapshots);
    } else {
      PassSaturated(m, snapshots, k - 1);
      PassStep(m, Fold(m, snapshots[..k - 1]), snapshots, k - 1);
      FoldPrefix(m, snapshots, k);
    }
  }

  lemma {:induction false} StablePasses(m: Memory, snapshots: seq<Memory>, k: nat)
    requires Stable(m, snapshots)
    ensures Passes(m, snapshots, k) == m
  {
    if k > 0 {
      StableFold(m, snapshots, |snapshots|);
      assert snapshots[..|snapshots|] == snapshots;
      StablePasses(m, snapshots, k - 1);
    }
  }

  lemma {:induction false} StableFold(m: Memory, snapshots: seq<Memory>, k: nat)
    requires Stable(m, snapshots) && k <= |snapshots|
    ensures Fold(m, snapshots[..k]) == m
  {
    if k > 0 {
      assert snapshots[..k][..k - 1] == snapshots[..k - 1];
      StableFold(m, snapshots, k - 1);
    }
  }

  /** An advance uses up at least one of the snapshots newer than the memory. */
  lemma AdvanceUsesUp(m: Memory, after: Memory, snapshots: seq<Memory>)
    requires Advanced(m, after, snapshots, |snapshots|)
    ensures Newer(snapshots, after.updatedAt) < Newer(snapshots, m.updatedAt)
  {
    NewerBounds(snapshots, m.updatedAt, after.updatedAt);
  }

  /** A pass over the whole list either changes nothing at all, or advances. */
  lemma WholePass(m: Memory, snapshots: seq<Memory>)
    requires SaturatedAll(m, snapshots)
    ensures
      var after := Fold(m, snapshots);
      (after == m && Stable(m, snapshots))
      || (SaturatedAll(after, snapshots) && Advanced(m, after, snapshots, |snapshots|)
          && Newer(snapshots, after.updatedAt) < Newer(snapshots, m.updatedAt))
  {
    var after := Fold(m, snapshots);
    assert snapshots[..|snapshots|] == snapshots;
    PassSaturated(m, snapshots, |snapshots|);
    if Advanced(m, after, snapshots, |snapshots|) {
      AdvanceUsesUp(m, after, snapshots);
    } else {
      assert Quiet(m, snapshots, |snapshots|);
    }
  }

  /** Once everything but profiles is in, as many passes as there are newer snapshots are enough. */
  lemma {:induction false} NewerPassesSuffice(m: Memory, snapshots: seq<Memory>, k: nat)
    requires SaturatedAll(m, snapshots) && Newer(snapshots, m.updatedAt) <= k
    ensures Stable(Passes(m, snapshots, k), snapshots)
    ensures SettledFrom(Passes(m, snapshots, k), m, snapshots)
    decreases k
  {
    var after := Fold(m, snapshots);
    WholePass(m, snapshots);
    if after.updatedAt == m.updatedAt {
      StablePasses(m, snapshots, k);
    } else {
      NewerPassesSuffice(after, snapshots, k - 1);
      SettledThrough(m, after, Passes(after, snapshots, k - 1), snapshots);
    }
  }

  lemma SettledThrough(m: Memory, after: Memory, last: Memory, snapshots: seq<Memory>)
    requires Advanced(m, after, snapshots, |snapshots|) && SettledFrom(last, after, snapshots)
    ensures SettledFrom(last, m, snapshots)
  {
  }

  /** The profile and time are those of the start, or of a listed snapshot newer than the start. */
  ghost predicate SettledFrom(m: Memory, start: Memory, snapshots: seq<Memory>) {
    || (m.profile == start.profile && m.updatedAt == start.updatedAt)
    || (start.updatedAt < m.updatedAt
        && exists i :: 0 <= i < |snapshots|
                       && snapshots[i].updatedAt == m.updatedAt && snapshots[i].profile == m.profile)
  }

  lemma {:induction false} FoldSettles(local: Memory, snapshots: seq<Memory>)
    ensures SettledFrom(Fold(local, snapshots), local, snapshots)
  {
    if snapshots != [] {
      var n := |snapshots| - 1;
      FoldSettles(local, snapshots[..n]);
      var prior := Fold(local, snapshots[..n]);
      assert forall i :: 0 <= i < n ==> snapshots[..n][i] == snapshots[i];
      assert snapshots[n].updatedAt > prior.updatedAt ==> Merged(prior, snapshots[n]).profile == snapshots[n].profile;
    }
  }

  /**
    Cycling over n snapshots comes to rest: after n + 1 passes no listed snapshot changes the memory
    any more, and further passes leave it as it is.
  */
  lemma CyclingConverges(local: Memory, snapshots: seq<Memory>, more: nat)
    ensures Stable(Passes(local, snapshots, |snapshots| + 1), snapshots)
    ensures Passes(Passes(local, snapshots, |snapshots| + 1), snapshots, more)
            == Passes(local, snapshots, |snapshots| + 1)
  {
    if snapshots != [] {
      var first := Fold(local, snapshots);
      FoldSaturates(local, snapshots);
      NewerBounds(snapshots, first.updatedAt, first.updatedAt);
      NewerPassesSuffice(first, snapshots, |snapshots|);
    }
    StablePasses(Passes(local, snapshots, |snapshots| + 1), snapshots, more);
  }

  /**
    At rest the profile is that of the newest snapshot, unless the memory was at least as new at the
    start, when it is the profile it had. (Snapshots of the same time carry the same profile.)
  */
  lemma CyclingAdoptsNewestProfile(local: Memory, snapshots: seq<Memory>, newest: int)
    requires 0 <= newest < |snapshots|
    requires forall i :: 0 <= i < |snapshots| ==> snapshots[i].updatedAt <= snapshots[newest].updatedAt
    requires forall i :: 0 <= i < |snapshots| && snapshots[i].updatedAt == snapshots[newest].updatedAt ==>
               snapshots[i].profile == snapshots[newest].profile
    ensures Passes(local, snapshots, |snapshots| + 1).profile
            == if local.updatedAt < snapshots[newest].updatedAt then snapshots[newest].profile else local.profile
  {
    var first := Fold(local, snapshots);
    FoldSaturates(local, snapshots);
    FoldSettles(local, snapshots);
    NewerBounds(snapshots, first.updatedAt, first.updatedAt);
    NewerPassesSuffice(first, snapshots, |snapshots|);
    var last := Passes(local, snapshots, |snapshots| + 1);
    assert !Changes(last, snapshots[newest]);
    assert SettledFrom(last, local, snapshots);
  }
}
