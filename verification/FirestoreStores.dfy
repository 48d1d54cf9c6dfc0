/**
  The three Firestore stores under every interleaving of their clients: what the commit protocol's
  refinement gives for publish records, backup buckets and activity buckets.
*/
module FirestoreStores {
  import opened Wrappers
  import opened CommitProtocol
  import PublishRecords
  import HostedBackups
  import ActivityFeed

  type PublishLog = seq<Entry<PublishRecords.PublishStatus, PublishRecords.PublishOp>>

  /** Entry i of the log changed the record, by an operation of that kind. */
  ghost predicate Committed(log: PublishLog, id: string, kind: PublishRecords.PublishOp -> bool, i: int) {
    0 <= i < |log| && log[i].wrote && log[i].request.name == id && kind(log[i].request.op)
  }

  /** A logged publish request wrote iff the history of requests counts it as accepted. */
  lemma CommittedIsAccepted(log: PublishLog, id: string, kind: PublishRecords.PublishOp -> bool)
    requires LogIsSequential(PublishRecords.DecideRequest, log)
    ensures forall i :: 0 <= i < |log| ==>
              (Committed(log, id, kind, i) <==> PublishRecords.Accepted(Requests(log), id, kind, i))
  {
  }

  /** A condition on some entry, said of the log or of the history of its requests. */
  lemma SomeCommitted(log: PublishLog, id: string, kind: PublishRecords.PublishOp -> bool)
    requires LogIsSequential(PublishRecords.DecideRequest, log)
    ensures (exists i :: Committed(log, id, kind, i))
            <==> exists i :: 0 <= i < |log| && PublishRecords.Accepted(Requests(log), id, kind, i)
  {
    CommittedIsAccepted(log, id, kind);
    var h := Requests(log);
    if exists i :: 0 <= i < |log| && PublishRecords.Accepted(h, id, kind, i) {
      var i :| 0 <= i < |log| && PublishRecords.Accepted(h, id, kind, i);
      assert Committed(log, id, kind, i);
    }
  }

  /** Every committed hide was followed by a committed restore. */
  ghost predicate HidesRestored(log: PublishLog, id: string) {
    forall i :: Committed(log, id, PublishRecords.IsAdmin, i) && log[i].request.op.Hide? ==>
      exists j :: i < j && Committed(log, id, PublishRecords.IsAdmin, j) && log[j].request.op.Restore?
  }

  ghost predicate AcceptedHidesRestored(h: PublishRecords.History, id: string) {
    forall i :: 0 <= i < |h| && PublishRecords.Accepted(h, id, PublishRecords.IsAdmin, i) && h[i].op.Hide? ==>
      exists j :: i < j < |h| && PublishRecords.Accepted(h, id, PublishRecords.IsAdmin, j) && h[j].op.Restore?
  }

  lemma HidesRestoredInHistory(log: PublishLog, id: string)
    requires LogIsSequential(PublishRecords.DecideRequest, log)
    ensures HidesRestored(log, id) <==> AcceptedHidesRestored(Requests(log), id)
  {
    var h := Requests(log);
    CommittedIsAccepted(log, id, PublishRecords.IsAdmin);
    assert forall j :: 0 <= j < |h| ==> h[j].op == log[j].request.op;
  }

  /**
    Publish records: after any interleaving of Firestore clients, a record is visible iff an upsert
    of it was committed, no author deletion was, and every committed hide was followed by a committed
    restore.
  */
  lemma VisibleUnderInterleaving(steps: seq<Step<PublishRecords.PublishOp>>, id: string)
    ensures
      var s := Run(PublishRecords.DecideRequest, steps);
      (id in s.docs && PublishRecords.Visible(s.docs[id].value)) <==>
      && (exists i :: Committed(s.log, id, PublishRecords.IsUpsert, i))
      && !(exists i :: Committed(s.log, id, PublishRecords.IsDelete, i))
      && HidesRestored(s.log, id)
  {
    var s := Run(PublishRecords.DecideRequest, steps);
    FirestoreRefinesLockedStore(PublishRecords.DecideRequest, steps);
    LookupValues(s.docs, id);
    SomeCommitted(s.log, id, PublishRecords.IsUpsert);
    SomeCommitted(s.log, id, PublishRecords.IsDelete);
    HidesRestoredInHistory(s.log, id);
    VisibleInHistory(Requests(s.log), id);
  }

  /** Visibility by history, with its last part named. */
  lemma VisibleInHistory(h: PublishRecords.History, id: string)
    ensures (id in PublishRecords.Docs(h) && PublishRecords.Visible(PublishRecords.Docs(h)[id])) <==>
            && (exists i :: 0 <= i < |h| && PublishRecords.Accepted(h, id, PublishRecords.IsUpsert, i))
            && !(exists i :: 0 <= i < |h| && PublishRecords.Accepted(h, id, PublishRecords.IsDelete, i))
            && AcceptedHidesRestored(h, id)
  {
    PublishRecords.VisibilityByHistory(h, id);
  }

  /**
    Backup buckets: after any interleaving, a bucket holds the ten newest of all generations whose
    upload was committed.
  */
  lemma BackupsUnderInterleaving(steps: seq<Step<HostedBackups.BackupOp>>, lookupId: string)
    ensures
      var s := Run(HostedBackups.Decide, steps);
      lookupId in s.docs ==>
        HostedBackups.HoldsNewest(s.docs[lookupId].value.generations, HostedBackups.Uploaded(Requests(s.log), lookupId))
  {
    var s := Run(HostedBackups.Decide, steps);
    FirestoreRefinesLockedStore(HostedBackups.Decide, steps);
    LookupValues(s.docs, lookupId);
    HostedBackups.BucketKeepsNewestTen(Requests(s.log), lookupId);
  }

  /** The condition of BucketHoldsNewest on a bucket, for a history. */
  ghost predicate HoldsNewest(events: seq<ActivityFeed.StoredEvent>, h: ActivityFeed.History, bucketId: string,
                              now: int)
  {
    var all := ActivityFeed.Uploaded(h, bucketId);
    var unexpired, kept := ActivityFeed.Unexpired(all, now), ActivityFeed.Pruned(events, now);
    && ActivityFeed.Shape(kept, unexpired)
    && (forall e :: e in unexpired ==>
          (!ActivityFeed.Holds(kept, e) <==> exists j :: 0 <= j < |h| && ActivityFeed.CrowdedOut(h, bucketId, e, j)))
    && (ActivityFeed.ExpireInOrder(all) ==> ActivityFeed.IsNewest(kept, ActivityFeed.MAX_ACTIVITY_EVENTS, unexpired))
  }

  /**
    Activity buckets: after any interleaving, the unexpired events of a bucket are sorted, at most
    2000, and lack just those of the committed uploads that were crowded out; so they are the newest
    2000 when events expire in order.
  */
  lemma ActivityUnderInterleaving(steps: seq<Step<ActivityFeed.ActivityOp>>, bucketId: string, now: int)
    requires
      var h := Requests(Run(ActivityFeed.Decide, steps).log);
      ActivityFeed.NotBefore(h, bucketId, now) && ActivityFeed.IdsNameEvents(ActivityFeed.Uploaded(h, bucketId))
    ensures
      var s := Run(ActivityFeed.Decide, steps);
      bucketId in s.docs ==> HoldsNewest(s.docs[bucketId].value.events, Requests(s.log), bucketId, now)
  {
    var s := Run(ActivityFeed.Decide, steps);
    FirestoreRefinesLockedStore(ActivityFeed.Decide, steps);
    LookupValues(s.docs, bucketId);
    if bucketId in s.docs {
      ActivityFeed.BucketHoldsNewest(Requests(s.log), bucketId, now);
    }
  }
}
