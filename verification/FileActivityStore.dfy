/** The file activity store: it loads a bucket, changes it in place, and saves it back, under a lock. */
module FileActivityStore {
  import opened Wrappers
  import opened Keys
  import opened CommitProtocol
  import opened NamedList
  import opened ActivityFeed

  function BucketIdOf(bucket: Bucket): string {
    bucket.bucketId
  }

  class FileActivityStore {
    /** The contents of the store's file. */
    var buckets: seq<Bucket>

    ghost predicate Valid()
      reads this
    {
      UniqueNames(buckets, BucketIdOf)
    }

    ghost function Contents(): map<string, Bucket>
      reads this
    {
      ByName(buckets, BucketIdOf)
    }

    constructor ()
      ensures Valid() && Contents() == map[]
    {
      buckets := [];
    }

    method Put(bucketId: string, tokenHash: string, event: Event, now: int) returns (status: ActivityStatus)
      requires Valid()
      modifies this
      ensures Valid()
      ensures
        var d := Decide(Request(bucketId, ActivityOp.Put(tokenHash, event, now)), Lookup(old(Contents()), bucketId));
        status == d.answer && Contents() == Applied(old(Contents()), bucketId, d)
    {
      var i := IndexOf(buckets, BucketIdOf, bucketId);
      ByNameOfIndex(buckets, BucketIdOf, bucketId);
      var changed: seq<Bucket>;
      if i < |buckets| {
        var bucket := new StoredActivityBucket.Load(buckets[i]);
        status := bucket.Put(tokenHash, event, now);
        var state := bucket.State();
        ByNameUpdate(buckets, BucketIdOf, i, state);
        changed := buckets[i := state];
      } else {
        var bucket := new StoredActivityBucket.New(bucketId, tokenHash, now);
        status := bucket.Put(tokenHash, event, now);
        var state := bucket.State();
        ByNameAppend(buckets, BucketIdOf, state);
        changed := buckets + [state];
      }
      if status.Stored? {
        buckets := changed;
      }
    }

    method List(bucketId: string, tokenHash: string, limit: nat, cursor: Option<Key>, now: int)
      returns (status: ActivityStatus)
      requires Valid()
      modifies this
      ensures Valid()
      ensures
        var d :=
          Decide(Request(bucketId, ActivityOp.List(tokenHash, limit, cursor, now)), Lookup(old(Contents()), bucketId));
        status == d.answer && Contents() == Applied(old(Contents()), bucketId, d)
    {
      var i := IndexOf(buckets, BucketIdOf, bucketId);
      ByNameOfIndex(buckets, BucketIdOf, bucketId);
      if i == |buckets| {
        return NotFound;
      }
      var bucket := new StoredActivityBucket.Load(buckets[i]);
      var before := |bucket.events|;
      status := bucket.List(tokenHash, limit, cursor, now);
      if before != |bucket.events| {
        var state := bucket.State();
        ByNameUpdate(buckets, BucketIdOf, i, state);
        buckets := buckets[i := state];
      }
    }
  }
}
