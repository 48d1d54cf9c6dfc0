/** The file backup store: it loads a bucket, changes it in place, and saves it back, under a lock. */
module FileBackupStore {
  import opened Wrappers
  import opened CommitProtocol
  import opened NamedList
  import opened HostedBackups

  function LookupIdOf(bucket: Bucket): string {
    bucket.lookupId
  }

  class FileBackupStore {
    /** The contents of the store's file. */
    var buckets: seq<Bucket>

    ghost predicate Valid()
      reads this
    {
      UniqueNames(buckets, LookupIdOf)
    }

    ghost function Contents(): map<string, Bucket>
      reads this
    {
      ByName(buckets, LookupIdOf)
    }

    constructor ()
      ensures Valid() && Contents() == map[]
    {
      buckets := [];
    }

    method Put(lookupId: string, tokenHash: string, backup: Package, now: int) returns (status: BackupStatus)
      requires Valid()
      modifies this
      ensures Valid()
      ensures
        var d := Decide(Request(lookupId, BackupOp.Put(tokenHash, backup, now)), Lookup(old(Contents()), lookupId));
        status == d.answer && Contents() == Applied(old(Contents()), lookupId, d)
    {
      var i := IndexOf(buckets, LookupIdOf, lookupId);
      ByNameOfIndex(buckets, LookupIdOf, lookupId);
      var changed: seq<Bucket>;
      if i < |buckets| {
        var bucket := new StoredHostedBackupBucket.Load(buckets[i]);
        status := bucket.Put(tokenHash, backup, now);
        var state := bucket.State();
        ByNameUpdate(buckets, LookupIdOf, i, state);
        changed := buckets[i := state];
      } else {
        var bucket := new StoredHostedBackupBucket.New(lookupId, tokenHash, now);
        status := bucket.Put(tokenHash, backup, now);
        var state := bucket.State();
        ByNameAppend(buckets, LookupIdOf, state);
        changed := buckets + [state];
      }
      if status.Stored? {
        buckets := changed;
      }
    }

    method Latest(lookupId: string, tokenHash: string) returns (status: BackupStatus)
      requires Valid()
      ensures Decide(Request(lookupId, GetLatest(tokenHash)), Lookup(Contents(), lookupId)) == Keep(status)
    {
      var i := IndexOf(buckets, LookupIdOf, lookupId);
      ByNameOfIndex(buckets, LookupIdOf, lookupId);
      if i == |buckets| {
        return NotFound;
      }
      return ReadLatest(buckets[i], tokenHash);
    }

    method List(lookupId: string, tokenHash: string) returns (status: BackupStatus)
      requires Valid()
      ensures Decide(Request(lookupId, GetList(tokenHash)), Lookup(Contents(), lookupId)) == Keep(status)
    {
      var i := IndexOf(buckets, LookupIdOf, lookupId);
      ByNameOfIndex(buckets, LookupIdOf, lookupId);
      if i == |buckets| {
        return NotFound;
      }
      return ReadList(buckets[i], tokenHash);
    }
  }
}
