/**
  The profile that folding snapshots ends with: an example in which it depends on the order of the
  snapshots, and exactly when it does not.
*/
module FoldedProfile {
  import opened Wrappers
  import opened Keys
  import opened Sorting
  import opened NamedList
  import opened LastWriterWins
  import opened MemoryMerge

  /** The profile can depend on the order: two newer snapshots that end with either's profile. */
  lemma ProfileDependsOnOrder()
    ensures exists local, a, b :: Fold(local, [a, b]).profile != Fold(local, [b, a]).profile
  {
    var p, q := Profile(Some("p"), None, []), Profile(Some("q"), None, []);
    var local, a, b := Memory(p, [], [], [], 0), Memory(q, [], [], [], 1), Memory(p, [], [], [], 2);
    assert [a, b][..1] == [a] && [b, a][..1] == [b] && [a][..0] == [] && [b][..0] == [];
    MergeSaturated(local, a);
    MergeSaturated(local, b);
    MergeSaturated(local.(profile := q, updatedAt := 1), b);
    assert Fold(local, [a]) == local.(profile := q, updatedAt := 1);
    assert Fold(local, [b]) == local;
    assert Fold(local, [a, b]).profile == p;
    assert Fold(local, [b, a]).profile == q;
  }

  /** Every fold of these snapshots, in any order and with any repeats, ends with one profile. */
  ghost predicate ProfileFixed(local: Memory, all: seq<Memory>) {
    forall a, b :: SameSnapshots(a, all) && SameSnapshots(b, all) ==> Fold(local, a).profile == Fold(local, b).profile
  }

  /** Snapshots of one time carry one profile. */
  ghost predicate TimesNameProfiles(all: seq<Memory>) {
    forall s, t :: s in all && t in all && s.updatedAt == t.updatedAt ==> s.profile == t.profile
  }

  ghost predicate IsNewestOf(n: Memory, all: seq<Memory>) {
    n in all && forall s :: s in all ==> s.updatedAt <= n.updatedAt
  }

  /** What a fold can hold the profile with: the memory, or a snapshot newer than it. */
  ghost predicate Holder(local: Memory, all: seq<Memory>, profile: Profile, h: Memory) {
    (h == local || (h in all && h.updatedAt > local.updatedAt)) && h.profile == profile
  }

  /** A snapshot with another profile is newer. */
  ghost predicate Overtaken(all: seq<Memory>, profile: Profile, time: int) {
    exists s :: s in all && s.profile != profile && s.updatedAt > time
  }

  /** A snapshot with the profile that is newer than all with another one. */
  ghost predicate Late(all: seq<Memory>, profile: Profile, g: Memory) {
    g in all && g.profile == profile && forall s :: s in all && s.profile != profile ==> s.updatedAt < g.updatedAt
  }

  /** The memory with all snapshots up to a time merged. */
  function UpTo(local: Memory, all: seq<Memory>, time: int): Memory {
    Fold(local, Filter(all, (s: Memory) => s.updatedAt <= time))
  }

  /** Some late snapshot has a tag, a peer or an interaction that no snapshot up to that time has. */
  ghost predicate AddsLater(local: Memory, all: seq<Memory>, profile: Profile, time: int) {
    exists g :: Late(all, profile, g) && !Saturated(UpTo(local, all, time), g)
  }

  /**
    The memory is at least as new as the newest snapshot; or whenever another profile is newer than a
    holder of the newest one's, a late snapshot adds something that was not there up to the holder.
  */
  ghost predicate NewestStands(local: Memory, all: seq<Memory>, newest: Memory) {
    || local.updatedAt >= newest.updatedAt
    || forall h ::
         Holder(local, all, newest.profile, h) && Overtaken(all, newest.profile, h.updatedAt) ==>
           AddsLater(local, all, newest.profile, h.updatedAt)
  }

  // ---------- what a fold can contain ----------

  /** All content of the memory is in the other one, as new or newer. */
  ghost predicate Within(m: Memory, big: Memory) {
    && (forall t :: t in m.commonTags ==> t in big.commonTags)
    && AtLeastAsNew(PeerMap(big), PeerMap(m), LastSeen)
    && AtLeastAsNew(InteractionMap(big), InteractionMap(m), LastUpdated)
  }

  lemma SaturatedWithin(m: Memory, big: Memory, s: Memory)
    requires Saturated(m, s) && Within(m, big)
    ensures Saturated(big, s)
  {
  }

  /** A merged list holds nothing that is not in a map that covers both parts. */
  lemma MergeAllWithin<T>(list: seq<T>, remote: seq<T>, id: T -> string, time: T -> int, big: map<string, T>)
    requires AtLeastAsNew(big, ByName(list, id), time)
    requires forall i :: 0 <= i < |remote| ==> Covers(big, remote[i], id, time)
    ensures AtLeastAsNew(big, ByName(MergeAll(list, remote, id, time), id), time)
  {
    var merged := ByName(MergeAll(list, remote, id, time), id);
    forall n | n in merged
      ensures n in big && time(merged[n]) <= time(big[n])
    {
      MergeAllOrigin(list, remote, id, time, n);
      if merged[n] in remote && id(merged[n]) == n {
        var i :| 0 <= i < |remote| && remote[i] == merged[n];
        assert Covers(big, remote[i], id, time);
      }
    }
  }

  lemma MergedWithin(m: Memory, s: Memory, big: Memory)
    requires Within(m, big) && Saturated(big, s)
    ensures Within(Merged(m, s), big)
  {
    MergeAllWithin(m.discoveredPeers, s.discoveredPeers, PeerIdOf, LastSeen, PeerMap(big));
    MergeAllWithin(m.interactions, s.interactions, InteractionPeer, LastUpdated, InteractionMap(big));
    AddTagsElements(m.commonTags, s.commonTags);
    SortDedupProperties(AddTags(m.commonTags, s.commonTags));
  }

  /** Folding more snapshots gives more content. */
  lemma {:induction false} FoldWithin(local: Memory, a: seq<Memory>, b: seq<Memory>)
    requires forall s :: s in a ==> s in b
    ensures Within(Fold(local, a), Fold(local, b))
  {
    if a == [] {
      FoldNeverGoesBack(local, b);
    } else {
      var front, s := a[..|a| - 1], a[|a| - 1];
      FoldWithin(local, front, b);
      FoldSaturates(local, b);
      assert s in b;
      MergedWithin(Fold(local, front), s, Fold(local, b));
    }
  }

  lemma UpToWithin(local: Memory, all: seq<Memory>, time: int, later: int)
    requires time <= later
    ensures Within(UpTo(local, all, time), UpTo(local, all, later))
  {
    FilterElements(all, (s: Memory) => s.updatedAt <= time);
    FilterElements(all, (s: Memory) => s.updatedAt <= later);
    FoldWithin(local, Filter(all, (s: Memory) => s.updatedAt <= time),
               Filter(all, (s: Memory) => s.updatedAt <= later));
  }

  lemma UpToSaturated(local: Memory, all: seq<Memory>, time: int, s: Memory)
    requires s in all && s.updatedAt <= time
    ensures Saturated(UpTo(local, all, time), s)
  {
    var some := Filter(all, (x: Memory) => x.updatedAt <= time);
    FilterElements(all, (x: Memory) => x.updatedAt <= time);
    FoldSaturates(local, some);
    var i :| 0 <= i < |some| && some[i] == s;
  }

  /** A merge without a change adds nothing. */
  lemma UnchangedWithin(m: Memory, s: Memory, big: Memory)
    requires !Changes(m, s) && Within(m, big)
    ensures Within(Merged(m, s), big)
  {
    ChangesIffChanged(m, s);
    SortDedupProperties(m.commonTags);
  }

  /** What a fold contains was there up to its time: merging anything newer moves the time. */
  lemma {:induction false} FoldContent(local: Memory, snapshots: seq<Memory>, all: seq<Memory>)
    requires forall s :: s in snapshots ==> s in all
    ensures Within(Fold(local, snapshots), UpTo(local, all, Fold(local, snapshots).updatedAt))
  {
    if snapshots == [] {
      FoldNeverGoesBack(local, Filter(all, (s: Memory) => s.updatedAt <= local.updatedAt));
    } else {
      var front, s := snapshots[..|snapshots| - 1], snapshots[|snapshots| - 1];
      FoldContent(local, front, all);
      MergeContent(local, Fold(local, front), s, all);
    }
  }

  lemma MergeContent(local: Memory, m: Memory, s: Memory, all: seq<Memory>)
    requires s in all && Within(m, UpTo(local, all, m.updatedAt))
    ensures Within(Merged(m, s), UpTo(local, all, Merged(m, s).updatedAt))
  {
    if Changes(m, s) {
      var time := Merged(m, s).updatedAt;
      UpToWithin(local, all, m.updatedAt, time);
      UpToSaturated(local, all, time, s);
      MergedWithin(m, s, UpTo(local, all, time));
    } else {
      UnchangedWithin(m, s, UpTo(local, all, m.updatedAt));
    }
  }

  // ---------- when the newest profile stands ----------

  /** The memory has the profile, and no snapshot with another one is newer. */
  ghost predicate Safe(m: Memory, all: seq<Memory>, profile: Profile) {
    m.profile == profile && !Overtaken(all, profile, m.updatedAt)
  }

  /** An overtaken holder, up to which all content of the late snapshots in the list was there. */
  ghost predicate HoldsBack(local: Memory, all: seq<Memory>, profile: Profile, snapshots: seq<Memory>, h: Memory) {
    && Holder(local, all, profile, h) && Overtaken(all, profile, h.updatedAt)
    && forall g :: g in snapshots && Late(all, profile, g) ==> Saturated(UpTo(local, all, h.updatedAt), g)
  }

  ghost predicate HeldBack(local: Memory, all: seq<Memory>, profile: Profile, snapshots: seq<Memory>) {
    exists h :: HoldsBack(local, all, profile, snapshots, h)
  }

  ghost predicate NoneLate(local: Memory, all: seq<Memory>, profile: Profile, snapshots: seq<Memory>) {
    forall g :: g in snapshots && g.updatedAt > local.updatedAt ==> !Late(all, profile, g)
  }

  /** The profile and the time of a fold are those of the memory, or of a newer snapshot. */
  lemma FoldStamp(local: Memory, snapshots: seq<Memory>, all: seq<Memory>)
    requires forall s :: s in snapshots ==> s in all
    ensures
      var m := Fold(local, snapshots);
      || (m.profile == local.profile && m.updatedAt == local.updatedAt)
      || (m.updatedAt > local.updatedAt
          && exists s :: s in all && s.profile == m.profile && s.updatedAt == m.updatedAt)
  {
    FoldSettles(local, snapshots);
    assert forall i :: 0 <= i < |snapshots| ==> snapshots[i] in all;
  }

  lemma SafeStays(m: Memory, s: Memory, all: seq<Memory>, profile: Profile)
    requires Safe(m, all, profile) && s in all
    ensures Safe(Merged(m, s), all, profile)
  {
  }

  /** A merge without a change has nothing to add. */
  lemma UnchangedSaturated(m: Memory, s: Memory)
    requires !Changes(m, s)
    ensures Saturated(m, s)
  {
    MergeSaturates(m, s);
    ChangesIffChanged(m, s);
    SortDedupProperties(m.commonTags);
  }

  /** A late snapshot that does not make the memory safe was merged when nothing of it was new. */
  lemma LateMerged(local: Memory, front: seq<Memory>, s: Memory, all: seq<Memory>, profile: Profile)
    requires (forall x :: x in front ==> x in all) && Late(all, profile, s) && s.updatedAt > local.updatedAt
    requires !Safe(Merged(Fold(local, front), s), all, profile)
    ensures HeldBack(local, all, profile, [s])
  {
    var m := Fold(local, front);
    FoldStamp(local, front, all);
    FoldContent(local, front, all);
    assert m.profile == profile;
    if !Changes(m, s) {
      UnchangedSaturated(m, s);
      SaturatedWithin(m, UpTo(local, all, m.updatedAt), s);
    }
    var h :| Holder(local, all, profile, h) && h.updatedAt == m.updatedAt;
    assert HoldsBack(local, all, profile, [s], h);
  }

  /** Beside an overtaken holder, late snapshots are newer than the memory. */
  lemma LateIsNewer(local: Memory, all: seq<Memory>, profile: Profile, h: Memory, g: Memory)
    requires Holder(local, all, profile, h) && Overtaken(all, profile, h.updatedAt) && Late(all, profile, g)
    ensures g.updatedAt > local.updatedAt
  {
  }

  /** A later overtaken holder holds back what an earlier one does. */
  lemma LaterHoldsBack(local: Memory, all: seq<Memory>, profile: Profile, snapshots: seq<Memory>, h: Memory, k: Memory)
    requires HoldsBack(local, all, profile, snapshots, h) && h.updatedAt <= k.updatedAt
    requires Holder(local, all, profile, k) && Overtaken(all, profile, k.updatedAt)
    ensures HoldsBack(local, all, profile, snapshots, k)
  {
    UpToWithin(local, all, h.updatedAt, k.updatedAt);
    forall g | g in snapshots && Late(all, profile, g)
      ensures Saturated(UpTo(local, all, k.updatedAt), g)
    {
      SaturatedWithin(UpTo(local, all, h.updatedAt), UpTo(local, all, k.updatedAt), g);
    }
  }

  /** One more snapshot with nothing to add at an overtaken holder is held back like those before it. */
  lemma HeldBackNext(local: Memory, all: seq<Memory>, profile: Profile, front: seq<Memory>, s: Memory, h: Memory)
    requires NoneLate(local, all, profile, front) || HeldBack(local, all, profile, front)
    requires Late(all, profile, s) && HoldsBack(local, all, profile, [s], h)
    ensures HeldBack(local, all, profile, front + [s])
  {
    assert s in [s];
    if HeldBack(local, all, profile, front) {
      var k :| HoldsBack(local, all, profile, front, k);
      if h.updatedAt <= k.updatedAt {
        LaterHoldsBack(local, all, profile, [s], h, k);
        assert HoldsBack(local, all, profile, front + [s], k);
      } else {
        LaterHoldsBack(local, all, profile, front, k, h);
        assert HoldsBack(local, all, profile, front + [s], h);
      }
    } else {
      forall g | g in front && Late(all, profile, g)
        ensures g.updatedAt > local.updatedAt
      {
        LateIsNewer(local, all, profile, h, g);
      }
      assert HoldsBack(local, all, profile, front + [s], h);
    }
  }

  /** One more snapshot keeps a late one out of the list, or a holder that held the others back. */
  lemma NoneLateNext(local: Memory, all: seq<Memory>, profile: Profile, front: seq<Memory>, s: Memory)
    requires NoneLate(local, all, profile, front) || HeldBack(local, all, profile, front)
    requires !Late(all, profile, s) || s.updatedAt <= local.updatedAt
    ensures NoneLate(local, all, profile, front + [s]) || HeldBack(local, all, profile, front + [s])
  {
    if HeldBack(local, all, profile, front) {
      var h :| HoldsBack(local, all, profile, front, h);
      forall g | g in front + [s] && Late(all, profile, g)
        ensures Saturated(UpTo(local, all, h.updatedAt), g)
      {
        LateIsNewer(local, all, profile, h, g);
      }
      assert HoldsBack(local, all, profile, front + [s], h);
    }
  }

  /** A fold is safe, or no late snapshot was merged, or all of them were held back. */
  lemma {:induction false} SafeOrHeldBack(local: Memory, snapshots: seq<Memory>, all: seq<Memory>, profile: Profile)
    requires forall s :: s in snapshots ==> s in all
    ensures
      || Safe(Fold(local, snapshots), all, profile)
      || NoneLate(local, all, profile, snapshots)
      || HeldBack(local, all, profile, snapshots)
  {
    if snapshots != [] {
      var front, s := snapshots[..|snapshots| - 1], snapshots[|snapshots| - 1];
      assert snapshots == front + [s];
      SafeOrHeldBack(local, front, all, profile);
      if Safe(Fold(local, front), all, profile) {
        SafeStays(Fold(local, front), s, all, profile);
      } else if !Late(all, profile, s) || s.updatedAt <= local.updatedAt {
        NoneLateNext(local, all, profile, front, s);
      } else if !Safe(Fold(local, snapshots), all, profile) {
        LateMerged(local, front, s, all, profile);
        var h :| HoldsBack(local, all, profile, [s], h);
        HeldBackNext(local, all, profile, front, s, h);
      }
    }
  }

  /** Nothing newer than the memory leaves its profile and time as they are. */
  lemma {:induction false} FoldOfOlder(local: Memory, snapshots: seq<Memory>)
    requires forall s :: s in snapshots ==> s.updatedAt <= local.updatedAt
    ensures SameStamp(Fold(local, snapshots), local)
  {
    if snapshots != [] {
      FoldOfOlder(local, snapshots[..|snapshots| - 1]);
    }
  }

  ghost predicate SameStamp(m: Memory, n: Memory) {
    m.profile == n.profile && m.updatedAt == n.updatedAt
  }

  lemma NotHeldBack(local: Memory, all: seq<Memory>, newest: Memory, snapshots: seq<Memory>)
    requires NewestStands(local, all, newest) && local.updatedAt < newest.updatedAt
    requires forall s :: s in all ==> s in snapshots
    ensures !HeldBack(local, all, newest.profile, snapshots)
  {
    forall h | Holder(local, all, newest.profile, h) && Overtaken(all, newest.profile, h.updatedAt)
      ensures !HoldsBack(local, all, newest.profile, snapshots, h)
    {
      var g :| Late(all, newest.profile, g) && !Saturated(UpTo(local, all, h.updatedAt), g);
      assert g in snapshots;
    }
  }

  /** When the newest profile stands, every fold ends with it, unless the memory is as new itself. */
  lemma FoldEndsWith(local: Memory, all: seq<Memory>, newest: Memory, snapshots: seq<Memory>)
    requires TimesNameProfiles(all) && IsNewestOf(newest, all) && NewestStands(local, all, newest)
    requires SameSnapshots(snapshots, all)
    ensures Fold(local, snapshots).profile
            == if local.updatedAt >= newest.updatedAt then local.profile else newest.profile
  {
    assert forall s :: s in snapshots <==> s in all;
    if local.updatedAt >= newest.updatedAt {
      FoldOfOlder(local, snapshots);
    } else {
      SafeOrHeldBack(local, snapshots, all, newest.profile);
      NotHeldBack(local, all, newest, snapshots);
      assert Late(all, newest.profile, newest);
    }
  }

  // ---------- when it does not ----------

  /** What is in already leaves everything but profile and time as it is, also in unsorted tags. */
  lemma SaturatedStamp(m: Memory, s: Memory)
    requires Saturated(m, s)
    ensures
      var m' := Merged(m, s);
      if s.updatedAt > m.updatedAt && s.profile != m.profile then SameStamp(m', s) else SameStamp(m', m)
  {
    MergeCovered(m.discoveredPeers, s.discoveredPeers, PeerIdOf, LastSeen);
    MergeCovered(m.interactions, s.interactions, InteractionPeer, LastUpdated);
    AddTagsElements(m.commonTags, s.commonTags);
  }

  /** Late snapshots with nothing to add leave a holder of their profile where it is. */
  lemma {:induction false} FoldOfSaturated(m: Memory, snapshots: seq<Memory>)
    requires forall s :: s in snapshots ==> s.profile == m.profile && Saturated(m, s)
    ensures SameStamp(Fold(m, snapshots), m) && NoOlder(Fold(m, snapshots), m)
  {
    if snapshots != [] {
      var front, s := snapshots[..|snapshots| - 1], snapshots[|snapshots| - 1];
      FoldOfSaturated(m, front);
      FoldNeverGoesBack(m, snapshots);
      SaturationLasts(m, Fold(m, front), s);
      SaturatedStamp(Fold(m, front), s);
    }
  }

  /** Holders that are overtaken leave an overtaken holder. */
  lemma {:induction false} FoldOfOvertaken(m: Memory, snapshots: seq<Memory>, all: seq<Memory>)
    requires Overtaken(all, m.profile, m.updatedAt)
    requires forall s :: s in snapshots ==> s.profile == m.profile && Overtaken(all, m.profile, s.updatedAt)
    ensures
      var m' := Fold(m, snapshots);
      m'.profile == m.profile && Overtaken(all, m.profile, m'.updatedAt)
  {
    if snapshots != [] {
      FoldOfOvertaken(m, snapshots[..|snapshots| - 1], all);
    }
  }

  /** Snapshots with other profiles, one of them newer, take the profile away. */
  lemma {:induction false} FoldOfOthers(m: Memory, snapshots: seq<Memory>)
    requires forall s :: s in snapshots ==> s.profile != m.profile
    ensures
      var m' := Fold(m, snapshots);
      m'.profile != m.profile || (SameStamp(m', m) && forall s :: s in snapshots ==> s.updatedAt <= m.updatedAt)
  {
    if snapshots != [] {
      var front, s := snapshots[..|snapshots| - 1], snapshots[|snapshots| - 1];
      FoldOfOthers(m, front);
      assert snapshots == front + [s];
    }
  }

  ghost function LateOnes(all: seq<Memory>, profile: Profile): seq<Memory> {
    Filter(all, (s: Memory) => Late(all, profile, s))
  }

  ghost function OvertakenOnes(all: seq<Memory>, profile: Profile): seq<Memory> {
    Filter(all, (s: Memory) => s.profile == profile && !Late(all, profile, s))
  }

  function Others(all: seq<Memory>, profile: Profile): seq<Memory> {
    Filter(all, (s: Memory) => s.profile != profile)
  }

  /** All snapshots up to an overtaken holder, and then the holder itself. */
  function First(local: Memory, all: seq<Memory>, h: Memory): seq<Memory> {
    Filter(all, (s: Memory) => s.updatedAt <= h.updatedAt)
    + if h.updatedAt > local.updatedAt then [h] else []
  }

  /** An order that loses the profile: the holder, late snapshots, overtaken ones, and then the others. */
  ghost function LosingOrder(local: Memory, all: seq<Memory>, profile: Profile, h: Memory): seq<Memory> {
    First(local, all, h) + LateOnes(all, profile) + OvertakenOnes(all, profile) + Others(all, profile)
  }

  lemma LosingOrderElements(local: Memory, all: seq<Memory>, profile: Profile, h: Memory)
    requires Holder(local, all, profile, h)
    ensures forall s :: s in LosingOrder(local, all, profile, h) <==> s in all
  {
    FilterElements(all, (s: Memory) => s.updatedAt <= h.updatedAt);
    FilterElements(all, (s: Memory) => Late(all, profile, s));
    FilterElements(all, (s: Memory) => s.profile == profile && !Late(all, profile, s));
    FilterElements(all, (s: Memory) => s.profile != profile);
  }

  /** After the first of them the memory holds the profile, and everything up to the holder. */
  lemma FirstHolds(local: Memory, all: seq<Memory>, profile: Profile, h: Memory)
    requires TimesNameProfiles(all) && Holder(local, all, profile, h)
    ensures
      var m := Fold(local, First(local, all, h));
      m.profile == profile && m.updatedAt <= h.updatedAt && NoOlder(m, UpTo(local, all, h.updatedAt))
  {
    var older := Filter(all, (s: Memory) => s.updatedAt <= h.updatedAt);
    FilterElements(all, (s: Memory) => s.updatedAt <= h.updatedAt);
    if h.updatedAt > local.updatedAt {
      FoldStamp(local, older, older);
      UpToSaturated(local, all, h.updatedAt, h);
      SaturatedStamp(Fold(local, older), h);
      MergeNeverGoesBack(Fold(local, older), h);
      assert First(local, all, h)[..|older|] == older;
    } else {
      FoldOfOlder(local, older);
      assert First(local, all, h) == older;
    }
  }

  /** Then the late and the overtaken snapshots leave it an overtaken holder. */
  lemma LateAddNothing(local: Memory, all: seq<Memory>, profile: Profile, h: Memory)
    requires TimesNameProfiles(all) && Holder(local, all, profile, h) && Overtaken(all, profile, h.updatedAt)
    requires !AddsLater(local, all, profile, h.updatedAt)
    ensures
      var m := Fold(Fold(Fold(local, First(local, all, h)), LateOnes(all, profile)), OvertakenOnes(all, profile));
      m.profile == profile && Overtaken(all, profile, m.updatedAt)
  {
    var m := Fold(local, First(local, all, h));
    FirstHolds(local, all, profile, h);
    FilterElements(all, (s: Memory) => Late(all, profile, s));
    FilterElements(all, (s: Memory) => s.profile == profile && !Late(all, profile, s));
    forall s | s in LateOnes(all, profile)
      ensures s.profile == m.profile && Saturated(m, s)
    {
      SaturationLasts(UpTo(local, all, h.updatedAt), m, s);
    }
    FoldOfSaturated(m, LateOnes(all, profile));
    FoldOfOvertaken(Fold(m, LateOnes(all, profile)), OvertakenOnes(all, profile), all);
  }

  lemma LosingOrderLoses(local: Memory, all: seq<Memory>, profile: Profile, h: Memory)
    requires TimesNameProfiles(all) && Holder(local, all, profile, h) && Overtaken(all, profile, h.updatedAt)
    requires !AddsLater(local, all, profile, h.updatedAt)
    ensures Fold(local, LosingOrder(local, all, profile, h)).profile != profile
  {
    var first, late := First(local, all, h), LateOnes(all, profile);
    var overtaken, others := OvertakenOnes(all, profile), Others(all, profile);
    LateAddNothing(local, all, profile, h);
    FoldConcat(local, first + late + overtaken, others);
    FoldConcat(local, first + late, overtaken);
    FoldConcat(local, first, late);
    FilterElements(all, (s: Memory) => s.profile != profile);
    FoldOfOthers(Fold(Fold(Fold(local, first), late), overtaken), others);
  }

  /** A newest snapshot behind an order that lost its profile brings it back. */
  lemma NewestRegains(local: Memory, all: seq<Memory>, newest: Memory, losing: seq<Memory>)
    requires TimesNameProfiles(all) && IsNewestOf(newest, all) && local.updatedAt < newest.updatedAt
    requires (forall s :: s in losing ==> s in all) && Fold(local, losing).profile != newest.profile
    ensures Fold(local, losing + [newest]).profile == newest.profile
  {
    FoldStamp(local, losing, all);
    assert (losing + [newest])[..|losing|] == losing;
  }

  lemma LostAndRegained(local: Memory, all: seq<Memory>, newest: Memory, losing: seq<Memory>)
    requires TimesNameProfiles(all) && IsNewestOf(newest, all) && local.updatedAt < newest.updatedAt
    requires (forall s :: s in losing <==> s in all) && Fold(local, losing).profile != newest.profile
    ensures !ProfileFixed(local, all)
  {
    NewestRegains(local, all, newest, losing);
    assert SameSnapshots(losing, all);
    assert SameSnapshots(losing + [newest], all);
  }

  lemma OrderMatters(local: Memory, all: seq<Memory>, newest: Memory, h: Memory)
    requires TimesNameProfiles(all) && IsNewestOf(newest, all) && local.updatedAt < newest.updatedAt
    requires Holder(local, all, newest.profile, h) && Overtaken(all, newest.profile, h.updatedAt)
    requires !AddsLater(local, all, newest.profile, h.updatedAt)
    ensures !ProfileFixed(local, all)
  {
    LosingOrderElements(local, all, newest.profile, h);
    LosingOrderLoses(local, all, newest.profile, h);
    LostAndRegained(local, all, newest, LosingOrder(local, all, newest.profile, h));
  }

  /**
    The profile after folding these snapshots is the same in every order, and with any repeats, iff
    the newest profile stands. (Snapshots of the same time carry the same profile.)
  */
  lemma ProfileFixedIff(local: Memory, all: seq<Memory>, newest: Memory)
    requires TimesNameProfiles(all) && IsNewestOf(newest, all)
    ensures ProfileFixed(local, all) <==> NewestStands(local, all, newest)
  {
    if NewestStands(local, all, newest) {
      forall a, b | SameSnapshots(a, all) && SameSnapshots(b, all)
        ensures Fold(local, a).profile == Fold(local, b).profile
      {
        FoldEndsWith(local, all, newest, a);
        FoldEndsWith(local, all, newest, b);
      }
    } else {
      var h :| Holder(local, all, newest.profile, h) && Overtaken(all, newest.profile, h.updatedAt)
               && !AddsLater(local, all, newest.profile, h.updatedAt);
      OrderMatters(local, all, newest, h);
    }
  }

  /**
    Another profile can be newer than a holder and the order still not matter: the tag of the newest
    snapshot moves the time of the memory, whatever profile it has by then.
  */
  lemma TagKeepsProfile(p: Profile, q: Profile, tag: string)
    requires p != q
    ensures
      var local, a, b := Memory(p, [], [], [], 0), Memory(q, [], [], [], 1), Memory(p, [tag], [], [], 2);
      Overtaken([a, b], p, local.updatedAt) && ProfileFixed(local, [a, b])
  {
    var local, a, b := Memory(p, [], [], [], 0), Memory(q, [], [], [], 1), Memory(p, [tag], [], [], 2);
    var all := [a, b];
    assert all[0] == a && all[1] == b;
    FilterNone(all, (s: Memory) => s.updatedAt <= 0);
    assert UpTo(local, all, 0) == local && !Saturated(local, b) by {
      assert tag in b.commonTags;
    }
    assert Late(all, p, b) && AddsLater(local, all, p, 0);
    ProfileFixedIff(local, all, b);
  }

  // ---------- whatever else the snapshots carry ----------

  ghost predicate SameStamps(a: seq<Memory>, b: seq<Memory>) {
    |a| == |b| && forall i :: 0 <= i < |a| ==> SameStamp(a[i], b[i])
  }

  ghost predicate NeverOvertaken(local: Memory, all: seq<Memory>, newest: Memory) {
    || local.updatedAt >= newest.updatedAt
    || forall h :: Holder(local, all, newest.profile, h) ==> !Overtaken(all, newest.profile, h.updatedAt)
  }

  lemma OvertakenByStamp(a: seq<Memory>, b: seq<Memory>, profile: Profile, time: int)
    requires SameStamps(a, b) && Overtaken(a, profile, time)
    ensures Overtaken(b, profile, time)
  {
    var i :| 0 <= i < |a| && a[i].profile != profile && a[i].updatedAt > time;
    assert SameStamp(a[i], b[i]) && b[i] in b;
  }

  lemma HolderByStamp(m: Memory, n: Memory, a: seq<Memory>, b: seq<Memory>, profile: Profile, h: Memory)
    requires SameStamp(m, n) && SameStamps(a, b) && Holder(m, a, profile, h)
    ensures exists k :: Holder(n, b, profile, k) && k.updatedAt == h.updatedAt
  {
    if h in a && h.updatedAt > m.updatedAt {
      var i :| 0 <= i < |a| && a[i] == h;
      assert SameStamp(a[i], b[i]) && Holder(n, b, profile, b[i]);
    } else {
      assert Holder(n, b, profile, n);
    }
  }

  lemma TimesNameProfilesByStamp(a: seq<Memory>, b: seq<Memory>)
    requires SameStamps(a, b) && TimesNameProfiles(b)
    ensures TimesNameProfiles(a)
  {
    forall s, t | s in a && t in a && s.updatedAt == t.updatedAt
      ensures s.profile == t.profile
    {
      var i :| 0 <= i < |a| && a[i] == s;
      var j :| 0 <= j < |a| && a[j] == t;
      assert SameStamp(a[i], b[i]) && SameStamp(a[j], b[j]) && b[i] in b && b[j] in b;
    }
  }

  lemma NewestByStamp(a: seq<Memory>, b: seq<Memory>, newest: Memory) returns (n: Memory)
    requires SameStamps(a, b) && IsNewestOf(newest, b)
    ensures IsNewestOf(n, a) && SameStamp(n, newest)
  {
    var i :| 0 <= i < |b| && b[i] == newest;
    n := a[i];
    forall s | s in a
      ensures s.updatedAt <= n.updatedAt
    {
      var j :| 0 <= j < |a| && a[j] == s;
      assert SameStamp(a[j], b[j]) && b[j] in b;
    }
  }

  lemma FixedByStamp(local: Memory, all: seq<Memory>, newest: Memory, m: Memory, some: seq<Memory>)
    requires TimesNameProfiles(all) && IsNewestOf(newest, all) && NeverOvertaken(local, all, newest)
    requires SameStamp(m, local) && SameStamps(some, all)
    ensures ProfileFixed(m, some)
  {
    var n := NewestByStamp(some, all, newest);
    TimesNameProfilesByStamp(some, all);
    forall h | Holder(m, some, n.profile, h) && local.updatedAt < newest.updatedAt
      ensures !Overtaken(some, n.profile, h.updatedAt)
    {
      HolderByStamp(m, local, some, all, n.profile, h);
      if Overtaken(some, n.profile, h.updatedAt) {
        OvertakenByStamp(some, all, n.profile, h.updatedAt);
      }
    }
    ProfileFixedIff(m, some, n);
  }

  function Bare(m: Memory): Memory {
    Memory(m.profile, [], [], [], m.updatedAt)
  }

  function Bares(all: seq<Memory>): (r: seq<Memory>)
    ensures |r| == |all| && forall i :: 0 <= i < |r| ==> r[i] == Bare(all[i])
  {
    seq(|all|, i requires 0 <= i < |all| => Bare(all[i]))
  }

  /** Snapshots that carry nothing but a profile have nothing to add. */
  lemma BaresAddNothing(local: Memory, all: seq<Memory>, profile: Profile, time: int)
    ensures !AddsLater(local, Bares(all), profile, time)
  {
    forall g | Late(Bares(all), profile, g)
      ensures Saturated(UpTo(local, Bares(all), time), g)
    {
      assert g.commonTags == [] && g.discoveredPeers == [] && g.interactions == [];
    }
  }

  lemma BaresDiffer(local: Memory, all: seq<Memory>, newest: Memory)
    requires TimesNameProfiles(all) && IsNewestOf(newest, all) && !NeverOvertaken(local, all, newest)
    ensures !ProfileFixed(Bare(local), Bares(all))
  {
    var h :| Holder(local, all, newest.profile, h) && Overtaken(all, newest.profile, h.updatedAt);
    var n := NewestByStamp(Bares(all), all, newest);
    TimesNameProfilesByStamp(Bares(all), all);
    HolderByStamp(local, Bare(local), all, Bares(all), n.profile, h);
    OvertakenByStamp(all, Bares(all), n.profile, h.updatedAt);
    var k :| Holder(Bare(local), Bares(all), n.profile, k) && k.updatedAt == h.updatedAt;
    BaresAddNothing(Bare(local), all, n.profile, k.updatedAt);
    OrderMatters(Bare(local), Bares(all), n, k);
  }

  /**
    Snapshots with these profiles and times fold to one profile in every order whatever else they and
    the memory carry, iff no holder of the newest profile is ever overtaken.
  */
  lemma AlwaysFixedIff(local: Memory, all: seq<Memory>, newest: Memory)
    requires TimesNameProfiles(all) && IsNewestOf(newest, all)
    ensures (forall m, some :: SameStamp(m, local) && SameStamps(some, all) ==> ProfileFixed(m, some))
            <==> NeverOvertaken(local, all, newest)
  {
    if NeverOvertaken(local, all, newest) {
      forall m, some | SameStamp(m, local) && SameStamps(some, all)
        ensures ProfileFixed(m, some)
      {
        FixedByStamp(local, all, newest, m, some);
      }
    } else {
      BaresDiffer(local, all, newest);
      assert SameStamp(Bare(local), local) && SameStamps(Bares(all), all);
    }
  }

  /**
    When only the newest snapshots carry the newest profile, and the memory is older and has another,
    every fold with a newest snapshot in it ends with that profile and that time.
  */
  lemma {:induction false} FoldAdoptsNewest(local: Memory, snapshots: seq<Memory>, newest: Memory)
    requires local.updatedAt < newest.updatedAt && local.profile != newest.profile
    requires forall s :: s in snapshots ==>
               && s.updatedAt <= newest.updatedAt
               && (s.profile == newest.profile <==> s.updatedAt == newest.updatedAt)
    ensures
      var m := Fold(local, snapshots);
      if exists s :: s in snapshots && s.updatedAt == newest.updatedAt then SameStamp(m, newest)
      else m.profile != newest.profile && m.updatedAt < newest.updatedAt
  {
    if snapshots != [] {
      var front, s := snapshots[..|snapshots| - 1], snapshots[|snapshots| - 1];
      FoldAdoptsNewest(local, front, newest);
      assert snapshots == front + [s];
    }
  }
}
