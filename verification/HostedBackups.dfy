/**
  Hosted backup buckets: the in-place bucket, its file store, and what every history of uploads
  leaves in a bucket.
*/
module HostedBackups {
  import opened Wrappers
  import opened Keys
  import opened Sorting
  import opened CommitProtocol
  import opened NamedList
  import opened Decimal
  import Utf8

  const MAX_BACKUP_GENERATIONS: nat := 10

  /** An encrypted backup package: its JSON text and the SHA-256 hex digest of that text. */
  datatype Package = Package(text: string, sha256: string)

  datatype Generation = Generation(
    generationId: string,
    createdAt: int,
    sizeBytes: nat,
    contentSha256: string,
    backup: Package,
    deleted: bool)

  /** A bucket as it is stored. `authHash` is the hash of the token the bucket was created with. */
  datatype Bucket = Bucket(lookupId: string, authHash: string, generations: seq<Generation>, createdAt: int,
                           updatedAt: int)

  datatype BackupStatus =
    | Stored(generation: Generation)
    | Found(generation: Generation)
    | Listed(generations: seq<Generation>)
    | NotFound
    | Unauthorized

  function GenerationKey(g: Generation): Key {
    Key(g.createdAt, g.generationId)
  }

  predicate NewestFirst(a: Generation, b: Generation) {
    KeyLess(GenerationKey(b), GenerationKey(a))
  }

  predicate KeyNewestFirst(a: Key, b: Key) {
    KeyLess(b, a)
  }

  function GenerationId(now: int, sha256: string): string {
    "gen_" + PrintInt(now) + "_" + Truncate(sha256, 16)
  }

  function NewGeneration(backup: Package, now: int): Generation {
    var size := |Utf8.Encode(backup.text)|;
    Generation(GenerationId(now, backup.sha256), now, size, "sha256:" + backup.sha256, backup, false)
  }

  function Kept(generations: seq<Generation>): seq<Generation> {
    Filter(generations, (g: Generation) => !g.deleted)
  }

  /** The generations after an accepted upload. */
  function WithGeneration(generations: seq<Generation>, g: Generation): seq<Generation> {
    Truncate(Kept(Sort(generations + [g], NewestFirst)), MAX_BACKUP_GENERATIONS)
  }

  /** The greatest generation; of several with the greatest key, the last. */
  function Latest(generations: seq<Generation>): Option<Generation> {
    if generations == [] then None
    else
      var rest := Latest(generations[1..]);
      if rest.None? || NewestFirst(generations[0], rest.value) then Some(generations[0]) else rest
  }

  class StoredHostedBackupBucket {
    var lookupId: string
    var authHash: string
    var generations: seq<Generation>
    var createdAt: int
    var updatedAt: int

    function State(): Bucket
      reads this
    {
      Bucket(lookupId, authHash, generations, createdAt, updatedAt)
    }

    constructor New(lookupId: string, authHash: string, now: int)
      ensures State() == Bucket(lookupId, authHash, [], now, now)
    {
      this.lookupId, this.authHash := lookupId, authHash;
      generations, createdAt, updatedAt := [], now, now;
    }

    constructor Load(bucket: Bucket)
      ensures State() == bucket
    {
      lookupId, authHash, generations := bucket.lookupId, bucket.authHash, bucket.generations;
      createdAt, updatedAt := bucket.createdAt, bucket.updatedAt;
    }

    method Put(tokenHash: string, backup: Package, now: int) returns (status: BackupStatus)
      modifies this
      ensures tokenHash != old(authHash) ==> status == Unauthorized && State() == old(State())
      ensures tokenHash == old(authHash) ==>
        && status == Stored(NewGeneration(backup, now))
        && State() == old(State()).(
             generations := WithGeneration(old(generations), NewGeneration(backup, now)), updatedAt := now)
    {
      if authHash != tokenHash {
        return Unauthorized;
      }
      var generation := NewGeneration(backup, now);
      generations := generations + [generation];
      updatedAt := now;
      generations := Sort(generations, NewestFirst);
      generations := Kept(generations);
      if |generations| > MAX_BACKUP_GENERATIONS {
        generations := generations[..MAX_BACKUP_GENERATIONS];
      }
      return Stored(generation);
    }
  }

  function ReadLatest(bucket: Bucket, tokenHash: string): BackupStatus {
    if bucket.authHash != tokenHash then Unauthorized
    else
      match Latest(Kept(bucket.generations))
      case Some(g) => Found(g)
      case None => NotFound
  }

  function ReadList(bucket: Bucket, tokenHash: string): BackupStatus {
    if bucket.authHash != tokenHash then Unauthorized
    else Listed(Sort(Kept(bucket.generations), NewestFirst))
  }

  // ---------- the stores ----------

  datatype BackupOp =
    | Put(tokenHash: string, backup: Package, now: int)
    | GetLatest(tokenHash: string)
    | GetList(tokenHash: string)

  function NewBucket(lookupId: string, tokenHash: string, g: Generation): Bucket {
    Bucket(lookupId, tokenHash, WithGeneration([], g), g.createdAt, g.createdAt)
  }

  /** What an operation on a bucket answers and commits for the document it read. */
  function Decide(request: Request<BackupOp>, doc: Option<Bucket>): Decision<Bucket, BackupStatus> {
    match request.op
    case Put(tokenHash, backup, now) =>
      var g := NewGeneration(backup, now);
      (match doc
       case None => Write(NewBucket(request.name, tokenHash, g), Stored(g))
       case Some(bucket) =>
         if bucket.authHash != tokenHash then Keep(Unauthorized)
         else Write(bucket.(generations := WithGeneration(bucket.generations, g), updatedAt := now), Stored(g)))
    case GetLatest(tokenHash) => Keep(if doc.None? then NotFound else ReadLatest(doc.value, tokenHash))
    case GetList(tokenHash) => Keep(if doc.None? then NotFound else ReadList(doc.value, tokenHash))
  }

  // ---------- what a history of uploads leaves in a bucket ----------

  type History = seq<Request<BackupOp>>

  function Docs(h: History): map<string, Bucket> {
    Replay(Decide, h)
  }

  function KeysOf(generations: seq<Generation>): (keys: seq<Key>)
    ensures |keys| == |generations|
    ensures forall i :: 0 <= i < |keys| ==> keys[i] == GenerationKey(generations[i])
  {
    seq(|generations|, i requires 0 <= i < |generations| => GenerationKey(generations[i]))
  }

  /** The generations that accepted uploads to the bucket made, in order of acceptance. */
  function Uploaded(h: History, lookupId: string): seq<Generation> {
    if h == [] then []
    else
      var n := |h| - 1;
      Uploaded(h[..n], lookupId)
      + if h[n].name == lookupId && h[n].op.Put? && LockedDecision(Decide, h, n).Write?
        then [NewGeneration(h[n].op.backup, h[n].op.now)] else []
  }

  /** The n greatest keys, newest first. */
  function NewestKeys(keys: seq<Key>, n: nat): seq<Key> {
    Truncate(Sort(keys, KeyNewestFirst), n)
  }

  lemma KeysTotalOrder()
    ensures TotalOrder(KeyNewestFirst)
  {
    KeyOrder();
  }

  lemma {:induction false} KeysOfInsert(g: Generation, s: seq<Generation>)
    ensures KeysOf(Insert(g, s, NewestFirst)) == Insert(GenerationKey(g), KeysOf(s), KeyNewestFirst)
  {
    if s != [] && NewestFirst(s[0], g) {
      KeysOfInsert(g, s[1..]);
      assert KeysOf(s)[1..] == KeysOf(s[1..]);
    }
  }

  lemma {:induction false} KeysOfSort(s: seq<Generation>)
    ensures KeysOf(Sort(s, NewestFirst)) == Sort(KeysOf(s), KeyNewestFirst)
  {
    if s != [] {
      KeysOfSort(s[1..]);
      KeysOfInsert(s[0], Sort(s[1..], NewestFirst));
      assert KeysOf(s)[1..] == KeysOf(s[1..]);
    }
  }

  ghost predicate NoneDeleted(generations: seq<Generation>) {
    forall g :: g in generations ==> !g.deleted
  }

  /** The list holds generations of `all`, with exactly its 10 greatest keys, newest first. */
  ghost predicate HoldsNewest(generations: seq<Generation>, all: seq<Generation>) {
    && NoneDeleted(generations)
    && KeysOf(generations) == NewestKeys(KeysOf(all), MAX_BACKUP_GENERATIONS)
    && forall g :: g in generations ==> g in all
  }

  /** The bucket's own sorting, dropping and truncating, in terms of keys. */
  lemma KeysOfUpload(generations: seq<Generation>, g: Generation)
    requires NoneDeleted(generations) && !g.deleted
    ensures KeysOf(WithGeneration(generations, g))
            == Truncate(Sort(KeysOf(generations) + [GenerationKey(g)], KeyNewestFirst), MAX_BACKUP_GENERATIONS)
    ensures forall x :: x in WithGeneration(generations, g) ==> x in generations || x == g
  {
    var sorted := Sort(generations + [g], NewestFirst);
    SortElements(generations + [g], NewestFirst);
    FilterAll(sorted, (x: Generation) => !x.deleted);
    assert Kept(sorted) == sorted;
    KeysOfSort(generations + [g]);
    assert KeysOf(generations + [g]) == KeysOf(generations) + [GenerationKey(g)];
    assert KeysOf(Truncate(sorted, MAX_BACKUP_GENERATIONS)) == Truncate(KeysOf(sorted), MAX_BACKUP_GENERATIONS);
    forall x | x in WithGeneration(generations, g)
      ensures x in generations || x == g
    {
      assert x in sorted;
    }
  }

  /** An upload keeps the newest of everything uploaded. */
  lemma UploadKeepsNewest(generations: seq<Generation>, g: Generation, all: seq<Generation>)
    requires HoldsNewest(generations, all) && !g.deleted
    ensures HoldsNewest(WithGeneration(generations, g), all + [g])
  {
    KeysOfUpload(generations, g);
    assert KeysOf(all + [g]) == KeysOf(all) + [GenerationKey(g)];
    KeysTotalOrder();
    TruncatedSortAppend(KeysOf(all), GenerationKey(g), MAX_BACKUP_GENERATIONS, KeyNewestFirst);
  }

  /**
    After any history, in any clock order, a bucket holds generations that were uploaded to it, with
    exactly the 10 greatest (created_at, generation_id) keys of all accepted uploads, newest first.
  */
  lemma {:induction false} BucketKeepsNewestTen(h: History, lookupId: string)
    ensures lookupId in Docs(h) <==> Uploaded(h, lookupId) != []
    ensures lookupId in Docs(h) ==> HoldsNewest(Docs(h)[lookupId].generations, Uploaded(h, lookupId))
  {
    if h != [] {
      var n := |h| - 1;
      var before := Lookup(Docs(h[..n]), lookupId);
      BucketKeepsNewestTen(h[..n], lookupId);
      if h[n].name != lookupId || LockedDecision(Decide, h, n).Keep? {
        assert Uploaded(h, lookupId) == Uploaded(h[..n], lookupId);
      } else {
        var generations := if before.Some? then before.value.generations else [];
        assert KeysOf([]) == [];
        UploadKeepsNewest(generations, NewGeneration(h[n].op.backup, h[n].op.now), Uploaded(h[..n], lookupId));
      }
    }
  }

  /** The newest of a list sorted newest first has the key of its head. */
  lemma {:induction false} LatestOfSorted(generations: seq<Generation>)
    requires generations != [] && Sorted(KeysOf(generations), KeyNewestFirst)
    ensures Latest(generations).Some? && Latest(generations).value in generations
    ensures GenerationKey(Latest(generations).value) == GenerationKey(generations[0])
  {
    if |generations| > 1 {
      assert KeysOf(generations)[1..] == KeysOf(generations[1..]);
      forall i, j | 0 <= i < j < |generations[1..]|
        ensures !KeyNewestFirst(KeysOf(generations[1..])[j], KeysOf(generations[1..])[i])
      {
        assert !KeyNewestFirst(KeysOf(generations)[j + 1], KeysOf(generations)[i + 1]);
      }
      LatestOfSorted(generations[1..]);
      KeyOrder();
      assert !KeyNewestFirst(KeysOf(generations)[1], KeysOf(generations)[0]);
    }
  }

  /**
    What an authorized reader gets from a bucket with uploads: `list` is the bucket's generations as
    they are, `latest` one of them with the key at the head of the list, the greatest uploaded.
  */
  lemma ReadsAgree(h: History, lookupId: string, tokenHash: string)
    requires lookupId in Docs(h) && Docs(h)[lookupId].authHash == tokenHash
    ensures
      var bucket := Docs(h)[lookupId];
      var list, latest := ReadList(bucket, tokenHash), ReadLatest(bucket, tokenHash);
      && list.Listed? && latest.Found?
      && KeysOf(list.generations) == NewestKeys(KeysOf(Uploaded(h, lookupId)), MAX_BACKUP_GENERATIONS)
      && multiset(list.generations) == multiset(bucket.generations)
      && list.generations != []
      && latest.generation in list.generations
      && GenerationKey(latest.generation) == GenerationKey(list.generations[0])
  {
    BucketKeepsNewestTen(h, lookupId);
    HoldsNewestReads(Docs(h)[lookupId].generations, Uploaded(h, lookupId));
  }

  lemma HoldsNewestReads(generations: seq<Generation>, all: seq<Generation>)
    requires HoldsNewest(generations, all) && all != []
    ensures
      var list, latest := Sort(Kept(generations), NewestFirst), Latest(Kept(generations));
      && KeysOf(list) == NewestKeys(KeysOf(all), MAX_BACKUP_GENERATIONS)
      && multiset(list) == multiset(generations)
      && list != [] && latest.Some? && latest.value in list
      && GenerationKey(latest.value) == GenerationKey(list[0])
  {
    FilterAll(generations, (x: Generation) => !x.deleted);
    assert Kept(generations) == generations;
    var list := Sort(generations, NewestFirst);
    KeysTotalOrder();
    SortSorted(KeysOf(all), KeyNewestFirst);
    SortMultiset(KeysOf(all), KeyNewestFirst);
    assert generations != [] && Sorted(KeysOf(generations), KeyNewestFirst);
    KeysOfSort(generations);
    SortOfSorted(KeysOf(generations), KeyNewestFirst);
    SortMultiset(generations, NewestFirst);
    SortElements(generations, NewestFirst);
    LatestOfSorted(generations);
    assert GenerationKey(list[0]) == KeysOf(list)[0] == KeysOf(generations)[0];
  }

  /**
    A bucket belongs to the token of the upload that created it: an operation is refused as
    unauthorized iff the bucket exists and its token hash is another, and then it changes nothing.
  */
  lemma WrongTokenChangesNothing(h: History, i: nat)
    requires i < |h|
    ensures LockedDecision(Decide, h, i).answer == Unauthorized
            <==> h[i].name in Docs(h[..i]) && Docs(h[..i])[h[i].name].authHash != h[i].op.tokenHash
    ensures LockedDecision(Decide, h, i).answer == Unauthorized ==> Docs(h[..i + 1]) == Docs(h[..i])
  {
    assert h[..i + 1][..i] == h[..i];
  }

  lemma {:induction false} TokenOfFirstUpload(h: History, lookupId: string, first: nat)
    requires first < |h| && h[first].name == lookupId && h[first].op.Put?
    requires forall i :: 0 <= i < first && h[i].name == lookupId ==> !h[i].op.Put?
    ensures lookupId in Docs(h) && Docs(h)[lookupId].authHash == h[first].op.tokenHash
  {
    var g := h[..|h| - 1];
    if first < |h| - 1 {
      TokenOfFirstUpload(g, lookupId, first);
    } else {
      NoUploadNoBucket(g, lookupId);
    }
  }

  lemma {:induction false} NoUploadNoBucket(h: History, lookupId: string)
    requires forall i :: 0 <= i < |h| && h[i].name == lookupId ==> !h[i].op.Put?
    ensures lookupId !in Docs(h)
  {
    if h != [] {
      NoUploadNoBucket(h[..|h| - 1], lookupId);
    }
  }
}
