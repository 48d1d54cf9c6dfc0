/**
  What every request on a hosted backup bucket is answered, by the history of uploads alone: what is
  read back is what was uploaded, to whom it is given, and which uploads are still there.
*/
module BackupAnswers {
  import opened Wrappers
  import opened Keys
  import opened Sorting
  import opened CommitProtocol
  import opened Decimal
  import opened HostedBackups
  import Utf8

  /** Position `first` is the first upload to the bucket; its token is the bucket's. */
  ghost predicate FirstUpload(h: History, id: string, first: int) {
    && 0 <= first < |h| && h[first].name == id && h[first].op.Put?
    && forall i :: 0 <= i < first && h[i].name == id ==> !h[i].op.Put?
  }

  /** Request j uploads to the bucket with the token of the first upload. */
  predicate IsUpload(h: History, id: string, first: nat, j: int)
    requires first < |h|
  {
    0 <= j < |h| && h[j].name == id && h[j].op.Put? && h[j].op.tokenHash == h[first].op.tokenHash
  }

  /** The generation is what the upload carried, described as the protocol says. */
  predicate MadeBy(g: Generation, upload: BackupOp) {
    && upload.Put?
    && g.backup == upload.backup && g.createdAt == upload.now && !g.deleted
    && g.sizeBytes == |Utf8.Encode(upload.backup.text)|
    && g.contentSha256 == "sha256:" + upload.backup.sha256
    && (|upload.backup.sha256| >= 16 ==>
          g.generationId == "gen_" + PrintInt(upload.now) + "_" + upload.backup.sha256[..16])
  }

  ghost predicate SomeMadeBy(generations: seq<Generation>, upload: BackupOp) {
    exists g :: g in generations && MadeBy(g, upload)
  }

  /** Newest first; of two of the same time, the one with the greater id. */
  ghost predicate IsNewestFirst(generations: seq<Generation>) {
    forall i, j :: 0 <= i < j < |generations| ==>
      var a, b := generations[i], generations[j];
      a.createdAt > b.createdAt || (a.createdAt == b.createdAt && !TextLess(a.generationId, b.generationId))
  }

  /** There are ten generations, none made before that time. */
  predicate FullSince(generations: seq<Generation>, time: int) {
    |generations| == 10 && forall g :: g in generations ==> g.createdAt >= time
  }

  /**
    The generations, at most ten, were all uploaded before position `end`, and every upload is among
    them or there are ten that are as new.
  */
  ghost predicate HoldsUploads(generations: seq<Generation>, h: History, id: string, first: nat, end: nat)
    requires first < |h|
  {
    && 0 < |generations| <= 10
    && (forall g :: g in generations ==> exists j :: 0 <= j < end && IsUpload(h, id, first, j) && MadeBy(g, h[j].op))
    && (forall j :: 0 <= j < end && IsUpload(h, id, first, j) ==>
          SomeMadeBy(generations, h[j].op) || FullSince(generations, h[j].op.now))
  }

  // ---------- one upload ----------

  lemma NewestFirstOrder()
    ensures StrictWeakOrder(NewestFirst)
  {
    KeyOrder();
  }

  lemma SortedIsNewestFirst(generations: seq<Generation>)
    ensures IsNewestFirst(Sort(generations, NewestFirst))
  {
    NewestFirstOrder();
    SortSorted(generations, NewestFirst);
    var sorted := Sort(generations, NewestFirst);
    forall i, j | 0 <= i < j < |sorted|
      ensures !NewestFirst(sorted[j], sorted[i])
    {
    }
  }

  /** The list an upload is cut from. */
  lemma SortedUpload(generations: seq<Generation>, g: Generation) returns (sorted: seq<Generation>)
    requires NoneDeleted(generations) && !g.deleted
    ensures WithGeneration(generations, g) == Truncate(sorted, 10) && IsNewestFirst(sorted)
    ensures multiset(sorted) == multiset(generations) + multiset{g} && |sorted| == |generations| + 1
  {
    sorted := Sort(generations + [g], NewestFirst);
    SortedIsNewestFirst(generations + [g]);
    SortElements(generations + [g], NewestFirst);
    SortMultiset(generations + [g], NewestFirst);
    FilterAll(sorted, (x: Generation) => !x.deleted);
    assert Kept(sorted) == sorted;
  }

  /** What an upload keeps: all but the oldest of eleven. */
  lemma UploadKeeps(generations: seq<Generation>, g: Generation)
    requires NoneDeleted(generations) && !g.deleted && |generations| <= 10
    ensures
      var after := WithGeneration(generations, g);
      && 0 < |after| <= 10
      && (forall x :: x in after ==> x in generations || x == g)
      && (forall x :: x in generations || x == g ==> x in after || FullSince(after, x.createdAt))
      && (forall time :: FullSince(generations, time) ==> FullSince(after, time))
  {
    var sorted := SortedUpload(generations, g);
    var after := Truncate(sorted, 10);
    forall x | x in after
      ensures x in generations || x == g
    {
      assert x in multiset(sorted);
    }
    forall x | x in generations || x == g
      ensures x in after || FullSince(after, x.createdAt)
    {
      assert x in multiset(sorted);
      OldestDropped(sorted, x);
    }
    forall time | FullSince(generations, time)
      ensures FullSince(after, time)
    {
      StaysFull(generations, g, sorted, time);
    }
  }

  lemma OldestDropped(sorted: seq<Generation>, x: Generation)
    requires IsNewestFirst(sorted) && x in sorted && |sorted| <= 11
    ensures x in Truncate(sorted, 10) || FullSince(Truncate(sorted, 10), x.createdAt)
  {
    var i :| 0 <= i < |sorted| && sorted[i] == x;
    if i < 10 {
      assert Truncate(sorted, 10)[i] == x;
    }
  }

  lemma StaysFull(generations: seq<Generation>, g: Generation, sorted: seq<Generation>, time: int)
    requires FullSince(generations, time) && IsNewestFirst(sorted)
    requires multiset(sorted) == multiset(generations) + multiset{g} && |sorted| == 11
    ensures FullSince(Truncate(sorted, 10), time)
  {
    var kept, last := sorted[..10], sorted[10];
    assert sorted == kept + [last];
    assert last in multiset(sorted);
    forall x | x in kept
      ensures x.createdAt >= time
    {
      var i :| 0 <= i < 10 && kept[i] == x;
      assert x.createdAt >= last.createdAt;
      if last == g {
        assert multiset(kept) == multiset(sorted) - multiset{g};
        assert multiset(generations) == multiset(sorted) - multiset{g};
        assert x in multiset(kept);
      }
    }
  }

  /** Whatever a stored bucket holds, its deleted generations are never read, and go with the next upload. */
  lemma DeletedAreSkipped(bucket: Bucket, tokenHash: string, g: Generation)
    ensures
      var list, latest := ReadList(bucket, tokenHash), ReadLatest(bucket, tokenHash);
      && (list.Listed? ==> forall x :: x in list.generations <==> x in bucket.generations && !x.deleted)
      && (latest.Found? ==> latest.generation in bucket.generations && !latest.generation.deleted)
      && (latest == NotFound ==> forall x :: x in bucket.generations ==> x.deleted)
      && NoneDeleted(WithGeneration(bucket.generations, g))
  {
    var kept := Kept(bucket.generations);
    FilterElements(bucket.generations, (x: Generation) => !x.deleted);
    SortElements(kept, NewestFirst);
    LatestIsNewest(kept);
    if kept == [] {
      forall x | x in bucket.generations
        ensures x.deleted
      {
        assert x.deleted || x in kept;
      }
    }
    var sorted := Sort(bucket.generations + [g], NewestFirst);
    FilterElements(sorted, (x: Generation) => !x.deleted);
    assert forall x :: x in WithGeneration(bucket.generations, g) ==> x in Kept(sorted);
  }

  // ---------- a history of uploads ----------

  lemma UploadsBefore(h: History, id: string, first: nat, k: nat)
    requires first < k <= |h|
    ensures forall j :: 0 <= j < k ==> (IsUpload(h[..k], id, first, j) <==> IsUpload(h, id, first, j))
  {
  }

  lemma HoldsInPrefix(generations: seq<Generation>, h: History, id: string, first: nat, k: nat)
    requires first < k <= |h| && HoldsUploads(generations, h[..k], id, first, k)
    ensures HoldsUploads(generations, h, id, first, k)
  {
    UploadsBefore(h, id, first, k);
    forall g | g in generations
      ensures exists j :: 0 <= j < k && IsUpload(h, id, first, j) && MadeBy(g, h[j].op)
    {
      var j :| 0 <= j < k && IsUpload(h[..k], id, first, j) && MadeBy(g, h[..k][j].op);
      assert IsUpload(h, id, first, j) && MadeBy(g, h[j].op);
    }
    forall j | 0 <= j < k && IsUpload(h, id, first, j)
      ensures SomeMadeBy(generations, h[j].op) || FullSince(generations, h[j].op.now)
    {
      assert h[..k][j] == h[j];
    }
  }

  lemma HoldsAfterUpload(generations: seq<Generation>, h: History, id: string, first: nat, n: nat)
    requires first < n < |h| && HoldsUploads(generations, h, id, first, n) && IsUpload(h, id, first, n)
    ensures
      var g := NewGeneration(h[n].op.backup, h[n].op.now);
      HoldsUploads(WithGeneration(generations, g), h, id, first, n + 1)
  {
    var g := NewGeneration(h[n].op.backup, h[n].op.now);
    var after := WithGeneration(generations, g);
    UploadKeeps(generations, g);
    forall x | x in after
      ensures exists j :: 0 <= j < n + 1 && IsUpload(h, id, first, j) && MadeBy(x, h[j].op)
    {
      if x == g {
        assert IsUpload(h, id, first, n) && MadeBy(g, h[n].op);
      }
    }
    forall j | 0 <= j < n + 1 && IsUpload(h, id, first, j)
      ensures SomeMadeBy(after, h[j].op) || FullSince(after, h[j].op.now)
    {
      if j == n {
        assert MadeBy(g, h[n].op);
      } else if SomeMadeBy(generations, h[j].op) {
        var x :| x in generations && MadeBy(x, h[j].op);
      }
    }
  }

  lemma HoldsFirstUpload(h: History, id: string, first: nat)
    requires FirstUpload(h, id, first)
    ensures
      var g := NewGeneration(h[first].op.backup, h[first].op.now);
      HoldsUploads(WithGeneration([], g), h, id, first, first + 1)
  {
    var g := NewGeneration(h[first].op.backup, h[first].op.now);
    UploadKeeps([], g);
    var after := WithGeneration([], g);
    assert MadeBy(g, h[first].op) && IsUpload(h, id, first, first);
    assert after[0] in after && after[0] == g;
  }

  /** The time of the last upload. */
  ghost predicate LastUploadAt(h: History, id: string, first: nat, time: int)
    requires first < |h|
  {
    exists j :: IsUpload(h, id, first, j) && h[j].op.now == time
                && forall k :: j < k < |h| ==> !IsUpload(h, id, first, k)
  }

  /** The bucket after any history: its token, its times, and the uploads it holds. */
  ghost predicate BucketByHistory(bucket: Bucket, h: History, id: string, first: nat)
    requires FirstUpload(h, id, first)
  {
    && bucket.lookupId == id && bucket.authHash == h[first].op.tokenHash
    && bucket.createdAt == h[first].op.now
    && LastUploadAt(h, id, first, bucket.updatedAt)
    && HoldsUploads(bucket.generations, h, id, first, |h|)
  }

  lemma CreatedByHistory(h: History, id: string)
    requires h != [] && FirstUpload(h, id, |h| - 1)
    ensures id in Docs(h) && BucketByHistory(Docs(h)[id], h, id, |h| - 1)
  {
    var n := |h| - 1;
    NoUploadNoBucket(h[..n], id);
    HoldsFirstUpload(h, id, n);
    assert IsUpload(h, id, n, n);
  }

  /** One more request on the bucket or elsewhere. */
  lemma ChangedByHistory(h: History, id: string, first: nat)
    requires first + 1 < |h| && FirstUpload(h, id, first) && FirstUpload(h[..|h| - 1], id, first)
    requires
      var g := h[..|h| - 1];
      id in Docs(g) && BucketByHistory(Docs(g)[id], g, id, first)
    ensures id in Docs(h) && BucketByHistory(Docs(h)[id], h, id, first)
  {
    var n := |h| - 1;
    var before := Docs(h[..n])[id];
    assert h[..n][first] == h[first];
    HoldsInPrefix(before.generations, h, id, first, n);
    OneMoreRequest(h, id, h[first].op.tokenHash);
    if IsUpload(h, id, first, n) {
      HoldsAfterUpload(before.generations, h, id, first, n);
      assert LastUploadAt(h, id, first, h[n].op.now);
    } else {
      HoldsLonger(before.generations, h, id, first, n);
      LastUploadStays(h, id, first, before.updatedAt);
    }
  }

  /** What one more request makes of the bucket. */
  lemma OneMoreRequest(h: History, id: string, tokenHash: string)
    requires h != [] && id in Docs(h[..|h| - 1]) && Docs(h[..|h| - 1])[id].authHash == tokenHash
    ensures id in Docs(h)
    ensures
      var before, last := Docs(h[..|h| - 1])[id], h[|h| - 1];
      Docs(h)[id] ==
      if last.name == id && last.op.Put? && last.op.tokenHash == tokenHash
      then before.(generations := WithGeneration(before.generations, NewGeneration(last.op.backup, last.op.now)),
                   updatedAt := last.op.now)
      else before
  {
  }

  lemma LastUploadStays(h: History, id: string, first: nat, time: int)
    requires first < |h| - 1 && LastUploadAt(h[..|h| - 1], id, first, time) && !IsUpload(h, id, first, |h| - 1)
    ensures LastUploadAt(h, id, first, time)
  {
    var g := h[..|h| - 1];
    UploadsBefore(h, id, first, |h| - 1);
    var j :| IsUpload(g, id, first, j) && g[j].op.now == time && forall k :: j < k < |g| ==> !IsUpload(g, id, first, k);
    assert IsUpload(h, id, first, j) && h[j].op.now == time;
  }

  lemma HoldsLonger(generations: seq<Generation>, h: History, id: string, first: nat, n: nat)
    requires first < n < |h| && HoldsUploads(generations, h, id, first, n) && !IsUpload(h, id, first, n)
    ensures HoldsUploads(generations, h, id, first, n + 1)
  {
  }

  lemma {:induction false} BucketFromHistory(h: History, id: string, first: nat)
    requires FirstUpload(h, id, first)
    ensures id in Docs(h) && BucketByHistory(Docs(h)[id], h, id, first)
  {
    if first == |h| - 1 {
      CreatedByHistory(h, id);
    } else {
      var g := h[..|h| - 1];
      assert FirstUpload(g, id, first);
      BucketFromHistory(g, id, first);
      ChangedByHistory(h, id, first);
    }
  }

  // ---------- answers ----------

  /** Nobody has uploaded to the bucket: there is nothing to read, and an upload creates it. */
  lemma AnswerOfNoBucket(h: History, i: nat)
    requires i < |h| && forall j :: 0 <= j < i && h[j].name == h[i].name ==> !h[j].op.Put?
    ensures
      var d := LockedDecision(Decide, h, i);
      if h[i].op.Put? then d.Write? && d.answer.Stored? && MadeBy(d.answer.generation, h[i].op)
      else d == Keep(NotFound)
  {
    NoUploadNoBucket(h[..i], h[i].name);
  }

  /** The answer to the one who has the bucket's token. */
  ghost predicate AnswersOwner(d: Decision<Bucket, BackupStatus>, h: History, i: nat, first: nat)
    requires first < i < |h|
  {
    var id := h[i].name;
    match h[i].op
    case Put(_, _, _) => d.Write? && d.answer.Stored? && MadeBy(d.answer.generation, h[i].op)
    case GetLatest(_) =>
      && d.Keep? && d.answer.Found?
      && (exists j :: 0 <= j < i && IsUpload(h, id, first, j) && MadeBy(d.answer.generation, h[j].op))
      && (forall j :: 0 <= j < i && IsUpload(h, id, first, j) ==> h[j].op.now <= d.answer.generation.createdAt)
    case GetList(_) =>
      && d.Keep? && d.answer.Listed? && IsNewestFirst(d.answer.generations)
      && HoldsUploads(d.answer.generations, h, id, first, i)
  }

  /**
    The restore law. Once there is a bucket, only the token of its first upload gets anything from it.
    An upload is confirmed with what was uploaded. `latest` gives back an upload that none is newer
    than. `list` gives back, newest first, at most ten uploads, and leaves one out only for ten as new.
  */
  lemma AnswerByHistory(h: History, i: nat, first: nat)
    requires i < |h| && first < i && FirstUpload(h, h[i].name, first)
    ensures
      var d := LockedDecision(Decide, h, i);
      && (d == Keep(Unauthorized) <==> h[i].op.tokenHash != h[first].op.tokenHash)
      && (h[i].op.tokenHash == h[first].op.tokenHash ==> AnswersOwner(d, h, i, first))
  {
    var generations := FoundBucket(h, i, first);
    ReadsHold(generations, h, h[i].name, first, i);
  }

  /** The bucket a request finds. */
  lemma FoundBucket(h: History, i: nat, first: nat) returns (generations: seq<Generation>)
    requires i < |h| && first < i && FirstUpload(h, h[i].name, first)
    ensures h[i].name in Docs(h[..i])
    ensures
      var bucket := Docs(h[..i])[h[i].name];
      bucket.authHash == h[first].op.tokenHash && bucket.generations == generations
    ensures HoldsUploads(generations, h, h[i].name, first, i)
  {
    var id, g := h[i].name, h[..i];
    assert FirstUpload(g, id, first);
    BucketFromHistory(g, id, first);
    generations := Docs(g)[id].generations;
    HoldsInPrefix(generations, h, id, first, i);
  }

  /** What is read from a list of uploads. */
  lemma ReadsHold(generations: seq<Generation>, h: History, id: string, first: nat, end: nat)
    requires first < |h| && HoldsUploads(generations, h, id, first, end)
    ensures
      var latest, list := Latest(Kept(generations)), Sort(Kept(generations), NewestFirst);
      && IsNewestFirst(list) && HoldsUploads(list, h, id, first, end)
      && latest.Some?
      && (exists j :: 0 <= j < end && IsUpload(h, id, first, j) && MadeBy(latest.value, h[j].op))
      && (forall j :: 0 <= j < end && IsUpload(h, id, first, j) ==> h[j].op.now <= latest.value.createdAt)
  {
    FilterAll(generations, (x: Generation) => !x.deleted);
    assert Kept(generations) == generations;
    SortedIsNewestFirst(generations);
    SortElements(generations, NewestFirst);
    SortMultiset(generations, NewestFirst);
    SameHolds(generations, Sort(generations, NewestFirst), h, id, first, end);
    LatestIsNewest(generations);
    var latest := Latest(generations).value;
    forall j | 0 <= j < end && IsUpload(h, id, first, j)
      ensures h[j].op.now <= latest.createdAt
    {
      assert SomeMadeBy(generations, h[j].op) || FullSince(generations, h[j].op.now);
      assert generations[0] in generations;
    }
  }

  lemma SameHolds(a: seq<Generation>, b: seq<Generation>, h: History, id: string, first: nat, end: nat)
    requires first < |h| && HoldsUploads(a, h, id, first, end)
    requires |a| == |b| && forall g :: g in a <==> g in b
    ensures HoldsUploads(b, h, id, first, end)
  {
    forall j | 0 <= j < end && IsUpload(h, id, first, j)
      ensures SomeMadeBy(b, h[j].op) || FullSince(b, h[j].op.now)
    {
      if SomeMadeBy(a, h[j].op) {
        var g :| g in a && MadeBy(g, h[j].op);
        assert g in b;
      }
    }
  }

  lemma {:induction false} LatestIsNewest(generations: seq<Generation>)
    ensures generations != [] ==>
      && Latest(generations).Some? && Latest(generations).value in generations
      && forall g :: g in generations ==> g.createdAt <= Latest(generations).value.createdAt
    ensures generations == [] ==> Latest(generations).None?
  {
    if generations != [] {
      LatestIsNewest(generations[1..]);
    }
  }

  /** Entry j of the log is an upload to the bucket, with that token, that was committed. */
  ghost predicate CommittedUpload(log: seq<Entry<BackupStatus, BackupOp>>, id: string, tokenHash: string, j: int) {
    && 0 <= j < |log| && log[j].wrote && log[j].request.name == id
    && log[j].request.op.Put? && log[j].request.op.tokenHash == tokenHash
  }

  lemma CommittedIsUpload(log: seq<Entry<BackupStatus, BackupOp>>, id: string, first: nat, j: nat)
    requires LogIsSequential(Decide, log) && FirstUpload(Requests(log), id, first) && j < |log|
    ensures CommittedUpload(log, id, log[first].request.op.tokenHash, j) <==> IsUpload(Requests(log), id, first, j)
  {
    if log[j].request.name == id {
      WroteIffUpload(Requests(log), id, first, j);
      assert LockedDecision(Decide, Requests(log), j).Write? == log[j].wrote;
    }
  }

  /** The generation is that of an upload among the first `end` entries, and none there is newer. */
  ghost predicate NewestCommitted(log: seq<Entry<BackupStatus, BackupOp>>, id: string, tokenHash: string, end: int,
                                  g: Generation)
  {
    && (exists j :: j < end && CommittedUpload(log, id, tokenHash, j) && MadeBy(g, log[j].request.op))
    && (forall j :: j < end && CommittedUpload(log, id, tokenHash, j) ==> log[j].request.op.now <= g.createdAt)
  }

  lemma NewestInLog(log: seq<Entry<BackupStatus, BackupOp>>, i: nat, first: nat, g: Generation)
    requires first < i < |log| && log[i].request.op.GetLatest?
    requires
      var h, id := Requests(log), log[i].request.name;
      && (forall j :: 0 <= j < |h| ==>
            (CommittedUpload(log, id, log[first].request.op.tokenHash, j) <==> IsUpload(h, id, first, j)))
      && (exists j :: 0 <= j < i && IsUpload(h, id, first, j) && MadeBy(g, h[j].op))
      && (forall j :: 0 <= j < i && IsUpload(h, id, first, j) ==> h[j].op.now <= g.createdAt)
    ensures NewestCommitted(log, log[i].request.name, log[first].request.op.tokenHash, i + 1, g)
  {
    var h, id, tokenHash := Requests(log), log[i].request.name, log[first].request.op.tokenHash;
    var j :| 0 <= j < i && IsUpload(h, id, first, j) && MadeBy(g, h[j].op);
    assert CommittedUpload(log, id, tokenHash, j) && MadeBy(g, log[j].request.op);
    forall k | 0 <= k < i + 1 && CommittedUpload(log, id, tokenHash, k)
      ensures log[k].request.op.now <= g.createdAt
    {
      assert IsUpload(h, id, first, k);
    }
  }

  lemma FoundInLog(log: seq<Entry<BackupStatus, BackupOp>>, i: nat)
    requires LogIsSequential(Decide, log) && i < |log|
    requires log[i].request.op.GetLatest? && log[i].answer.Found?
    ensures NewestCommitted(log, log[i].request.name, log[i].request.op.tokenHash, i + 1, log[i].answer.generation)
  {
    var h := Requests(log);
    assert LockedDecision(Decide, h, i).answer == log[i].answer;
    var first := FoundIsUpload(h, i);
    forall j | 0 <= j < |log|
      ensures CommittedUpload(log, h[i].name, h[first].op.tokenHash, j) <==> IsUpload(h, h[i].name, first, j)
    {
      CommittedIsUpload(log, h[i].name, first, j);
    }
    NewestInLog(log, i, first, log[i].answer.generation);
  }

  /**
    So also with Firestore, in every interleaving of clients: what a client is given as the latest
    backup was uploaded before with the client's token, and none so committed before is newer.
  */
  lemma RestoredUnderInterleaving(steps: seq<Step<BackupOp>>, r: nat)
    requires
      var replies := Run(Decide, steps).replies;
      r < |replies| && replies[r].request.op.GetLatest? && replies[r].answer.Some? && replies[r].answer.value.Found?
    ensures
      var s := Run(Decide, steps);
      var reply := s.replies[r];
      NewestCommitted(s.log, reply.request.name, reply.request.op.tokenHash, reply.logged,
                      reply.answer.value.generation)
  {
    FirestoreRefinesLockedStore(Decide, steps);
    RepliedFromLog(Run(Decide, steps), r);
  }

  lemma RepliedFromLog(s: System<Bucket, BackupStatus, BackupOp>, r: nat)
    requires LogIsSequential(Decide, s.log) && RepliesAreLogged(s) && r < |s.replies|
    requires s.replies[r].request.op.GetLatest? && s.replies[r].answer.Some? && s.replies[r].answer.value.Found?
    ensures
      var reply := s.replies[r];
      NewestCommitted(s.log, reply.request.name, reply.request.op.tokenHash, reply.logged,
                      reply.answer.value.generation)
  {
    var reply := s.replies[r];
    var i := reply.logged - 1;
    assert 0 <= i < |s.log| && s.log[i].request == reply.request && s.log[i].answer == reply.answer.value;
    FoundInLog(s.log, i);
  }

  /** A backup is found only when one was uploaded, with the reader's token. */
  lemma FoundIsUpload(h: History, i: nat) returns (first: nat)
    requires i < |h| && h[i].op.GetLatest? && LockedDecision(Decide, h, i).answer.Found?
    ensures first < i && FirstUpload(h, h[i].name, first) && h[i].op.tokenHash == h[first].op.tokenHash
    ensures AnswersOwner(LockedDecision(Decide, h, i), h, i, first)
  {
    if forall j :: 0 <= j < i && h[j].name == h[i].name ==> !h[j].op.Put? {
      AnswerOfNoBucket(h, i);
    }
    first := FirstUploadBefore(h, h[i].name, i);
    AnswerByHistory(h, i, first);
  }

  lemma FirstUploadBefore(h: History, id: string, end: nat) returns (first: nat)
    requires end <= |h| && exists j :: 0 <= j < end && h[j].name == id && h[j].op.Put?
    ensures first < end && FirstUpload(h, id, first)
  {
    first := 0;
    while !(h[first].name == id && h[first].op.Put?)
      invariant first < end && forall i :: 0 <= i < first && h[i].name == id ==> !h[i].op.Put?
      invariant exists j :: first <= j < end && h[j].name == id && h[j].op.Put?
      decreases end - first
    {
      first := first + 1;
    }
  }

  /** The document changes exactly by uploads with the bucket's token. */
  lemma WroteIffUpload(h: History, id: string, first: nat, j: nat)
    requires j < |h| && h[j].name == id && FirstUpload(h, id, first)
    ensures LockedDecision(Decide, h, j).Write? <==> IsUpload(h, id, first, j)
  {
    if j <= first {
      AnswerOfNoBucket(h, j);
    } else {
      AnswerByHistory(h, j, first);
    }
  }
}
