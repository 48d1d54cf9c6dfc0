/**
  When the file and the Firestore store answer discover requests alike, up to a limit: they may differ
  in their candidates, as long as the limit is filled before those are reached.
*/
module DiscoverAgreement {
  import opened Wrappers
  import opened Keys
  import opened Sorting
  import opened PublishRecords
  import opened Pagination
  import opened Discover
  import DiscoverQuery

  /** How many candidates match more of the tags than the object. */
  function MoreOverlap(candidates: seq<PublishObject>, o: PublishObject, tags: seq<string>): nat {
    |Filter(candidates, (c: PublishObject) => Overlap(c, tags) > Overlap(o, tags))|
  }

  /** What one list of candidates alone has is out of reach: `most` of it match more of the tags. */
  ghost predicate OutOfReach(mine: seq<PublishObject>, theirs: seq<PublishObject>, tags: seq<string>, most: nat) {
    forall o :: o in mine && o !in theirs ==> MoreOverlap(mine, o, tags) >= most
  }

  ghost predicate AllMatch(candidates: seq<PublishObject>, tags: seq<string>) {
    UniqueObjects(candidates) && forall c :: c in candidates ==> MatchesTags(c, tags)
  }

  function Earlier(query: Query, o: PublishObject): PublishObject -> bool {
    (c: PublishObject) => RanksBefore(c, o, query.tags, query.score)
  }

  /** Matching more tags is ranking before. */
  lemma MoreOverlapIsEarlier(candidates: seq<PublishObject>, o: PublishObject, query: Query)
    ensures MoreOverlap(candidates, o, query.tags) <= |Filter(candidates, Earlier(query, o))|
  {
    FilterMonotone(candidates, (c: PublishObject) => Overlap(c, query.tags) > Overlap(o, query.tags),
                   Earlier(query, o));
  }

  /** So what is ranked within the reach is a candidate on both sides. */
  lemma RankedIsShared(a: seq<PublishObject>, b: seq<PublishObject>, query: Query, o: PublishObject)
    requires AllMatch(a, query.tags) && OutOfReach(a, b, query.tags, query.limit) && o in Rank(a, query)
    ensures o in a && o in b && |Filter(a, Earlier(query, o))| < query.limit
  {
    RankTakesIff(a, query, o);
    MoreOverlapIsEarlier(a, o, query);
  }

  /** If the other ranking left it out, it would be full of shared candidates that rank before it. */
  lemma RankedOnBothSides(a: seq<PublishObject>, b: seq<PublishObject>, query: Query, o: PublishObject)
    requires AllMatch(a, query.tags) && AllMatch(b, query.tags)
    requires OutOfReach(a, b, query.tags, query.limit) && OutOfReach(b, a, query.tags, query.limit)
    requires o in Rank(a, query)
    ensures o in Rank(b, query)
  {
    RankedIsShared(a, b, query, o);
    if o !in Rank(b, query) {
      RankTakesBest(b, query);
      RankTakesIff(b, query, o);
      FullRank(b, query, o);
      FilterElements(a, Earlier(query, o));
      forall r | r in Rank(b, query)
        ensures r in Filter(a, Earlier(query, o))
      {
        RankedIsShared(b, a, query, r);
      }
      RankIsDistinct(b, query);
      DistinctSize(Rank(b, query), Filter(a, Earlier(query, o)));
    }
  }

  /** A ranking that leaves out a candidate is full. */
  lemma FullRank(candidates: seq<PublishObject>, query: Query, o: PublishObject)
    requires AllMatch(candidates, query.tags) && o in candidates && o !in Rank(candidates, query)
    ensures |Rank(candidates, query)| == query.limit
  {
    RankTakesBest(candidates, query);
    RankTakesIff(candidates, query, o);
    FilterAll(candidates, (r: PublishObject) => MatchesTags(r, query.tags));
    FilterElements(candidates, Earlier(query, o));
  }

  lemma RankIsDistinct(candidates: seq<PublishObject>, query: Query)
    requires UniqueObjects(candidates)
    ensures forall i, j :: 0 <= i < j < |Rank(candidates, query)| ==>
              Rank(candidates, query)[i] != Rank(candidates, query)[j]
  {
    var ranking := Rank(candidates, query);
    RankTakesBest(candidates, query);
    forall i, j | 0 <= i < j < |ranking|
      ensures ranking[i] != ranking[j]
    {
      TextTrichotomy(ranking[i].id, ranking[i].id);
    }
  }

  lemma SameRanking(a: seq<PublishObject>, b: seq<PublishObject>, query: Query)
    requires AllMatch(a, query.tags) && AllMatch(b, query.tags)
    requires OutOfReach(a, b, query.tags, query.limit) && OutOfReach(b, a, query.tags, query.limit)
    ensures Rank(a, query) == Rank(b, query)
  {
    forall o
      ensures o in Rank(a, query) <==> o in Rank(b, query)
    {
      if o in Rank(a, query) {
        RankedOnBothSides(a, b, query, o);
      }
      if o in Rank(b, query) {
        RankedOnBothSides(b, a, query, o);
      }
    }
    RankIsStrict(a, query);
    RankIsStrict(b, query);
    RankOrder(query.tags, query.score);
    StrictUnique(Rank(a, query), Rank(b, query), Before(query));
  }

  function Before(query: Query): (PublishObject, PublishObject) -> bool {
    (a: PublishObject, b: PublishObject) => RanksBefore(a, b, query.tags, query.score)
  }

  lemma RankIsStrict(candidates: seq<PublishObject>, query: Query)
    requires UniqueObjects(candidates)
    ensures Strict(Rank(candidates, query), Before(query))
  {
    RankTakesBest(candidates, query);
  }

  /** A query for just as many as needed to reach the object, with a score that favours it. */
  function Reaching(candidates: seq<PublishObject>, tags: seq<string>, o: PublishObject): Query {
    Query(tags, MoreOverlap(candidates, o, tags) + 1, (id: string) => if id == o.id then 1 else 0)
  }

  lemma ReachingRanks(candidates: seq<PublishObject>, tags: seq<string>, o: PublishObject)
    requires AllMatch(candidates, tags) && o in candidates
    ensures o in Rank(candidates, Reaching(candidates, tags, o))
  {
    var query := Reaching(candidates, tags, o);
    var more := (c: PublishObject) => Overlap(c, tags) > Overlap(o, tags);
    RankTakesIff(candidates, query, o);
    forall c | c in candidates && Earlier(query, o)(c)
      ensures more(c)
    {
      TextTrichotomy(o.id, o.id);
      if c.id == o.id {
        SameObject(candidates, c, o);
      }
    }
    FilterMonotone(candidates, Earlier(query, o), more);
  }

  lemma SameObject(candidates: seq<PublishObject>, c: PublishObject, o: PublishObject)
    requires UniqueObjects(candidates) && c in candidates && o in candidates && c.id == o.id
    ensures c == o
  {
    var i :| 0 <= i < |candidates| && candidates[i] == c;
    var j :| 0 <= j < |candidates| && candidates[j] == o;
  }

  /** Otherwise some query within the bound tells the candidates apart. */
  lemma WithinReach(a: seq<PublishObject>, b: seq<PublishObject>, tags: seq<string>, most: nat) returns (query: Query)
    requires AllMatch(a, tags) && AllMatch(b, tags) && !OutOfReach(a, b, tags, most)
    ensures query.tags == tags && query.limit <= most && Rank(a, query) != Rank(b, query)
  {
    var o :| o in a && o !in b && MoreOverlap(a, o, tags) < most;
    query := Reaching(a, tags, o);
    ReachingRanks(a, tags, o);
    RankTakesIff(b, query, o);
  }

  lemma CandidatesAllMatch(records: seq<StoredPublishRecord>, tags: seq<string>)
    requires UniqueIds(records)
    ensures AllMatch(FileCandidates(records, tags), tags) && AllMatch(FirestoreCandidates(records, tags), tags)
  {
    FileCandidatesUnique(records, tags);
    FirestoreCandidatesUnique(records, tags);
    CandidatesMatch(records, tags);
  }

  /** The lists of candidates of the two stores agree but for what is out of reach. */
  ghost predicate AgreeWithin(records: seq<StoredPublishRecord>, documents: seq<StoredPublishRecord>,
                              tags: seq<string>, most: nat)
  {
    && OutOfReach(FileCandidates(records, tags), FirestoreCandidates(documents, tags), tags, most)
    && OutOfReach(FirestoreCandidates(documents, tags), FileCandidates(records, tags), tags, most)
  }

  /**
    Both stores answer alike every discover request with these tags and a limit of at most `most`, iff
    every candidate that only one of them takes has `most` candidates of the same store that match more
    of the tags.
  */
  lemma StoresAgreeIff(records: seq<StoredPublishRecord>, documents: seq<StoredPublishRecord>, tags: seq<string>,
                       most: nat)
    requires UniqueIds(records) && UniqueIds(documents) && forall d :: d in records <==> d in documents
    ensures (forall query: Query :: query.tags == tags && query.limit <= most ==>
              FileDiscover(records, query) == FirestoreDiscover(documents, query))
            <==> AgreeWithin(records, documents, tags, most)
  {
    var a, b := FileCandidates(records, tags), FirestoreCandidates(documents, tags);
    CandidatesAllMatch(records, tags);
    CandidatesAllMatch(documents, tags);
    if AgreeWithin(records, documents, tags, most) {
      forall query: Query | query.tags == tags && query.limit <= most
        ensures FileDiscover(records, query) == FirestoreDiscover(documents, query)
      {
        SameRanking(a, b, query);
      }
    } else if !OutOfReach(a, b, tags, most) {
      var query := WithinReach(a, b, tags, most);
      assert FileDiscover(records, query) != FirestoreDiscover(documents, query);
    } else {
      var query := WithinReach(b, a, tags, most);
      assert FileDiscover(records, query) != FirestoreDiscover(documents, query);
    }
  }

  // ---------- an input where candidates differ and answers do not ----------

  function Newcomer(tag: string, other: string, i: nat): (r: StoredPublishRecord)
    ensures Visible(r) && r.signed.tags == [tag, other]
    ensures r.signed.createdAt > 0 && |r.signed.id| == DISCOVER_CANDIDATE_LIMIT + 1 + i
  {
    var n := DISCOVER_CANDIDATE_LIMIT + 1 + i;
    NewRecord(PublishObject(seq(n, _ => 'x'), n, "", [tag, other], ""))
  }

  /** As many newer records with both tags as a request may ask for. */
  function Newcomers(tag: string, other: string): (r: seq<StoredPublishRecord>)
    ensures |r| == DiscoverQuery.DISCOVER_MAX_LIMIT
    ensures forall i :: 0 <= i < |r| ==> r[i] == Newcomer(tag, other, i)
  {
    seq(DiscoverQuery.DISCOVER_MAX_LIMIT, i requires i >= 0 => Newcomer(tag, other, i))
  }

  function Gathering(tag: string, other: string): (r: seq<StoredPublishRecord>)
    ensures |r| == DISCOVER_CANDIDATE_LIMIT + 1 + DiscoverQuery.DISCOVER_MAX_LIMIT
    ensures r[0] == Crowd(tag)[0] && forall i :: 0 < i < |r| ==> NewestFirst(r[i], r[0])
    ensures forall x :: x in r <==> x in Crowd(tag) || x in Newcomers(tag, other)
  {
    Crowd(tag) + Newcomers(tag, other)
  }

  lemma GatheringIsUnique(tag: string, other: string)
    ensures UniqueIds(Gathering(tag, other))
  {
    var crowd, newcomers, records := Crowd(tag), Newcomers(tag, other), Gathering(tag, other);
    forall i, j | 0 <= i < j < |records|
      ensures records[i].signed.id != records[j].signed.id
    {
      if j >= |crowd| {
        assert records[j] == newcomers[j - |crowd|];
        assert records[i] == if i < |crowd| then crowd[i] else newcomers[i - |crowd|];
      } else {
        assert records[i] == crowd[i] && records[j] == crowd[j];
      }
    }
  }

  lemma NewerAtMost(records: seq<StoredPublishRecord>, keep: StoredPublishRecord -> bool, r: StoredPublishRecord)
    ensures Newer(records, keep, r) <= |Filter(records, keep)| <= |records|
  {
    FilterMonotone(records, (x: StoredPublishRecord) => keep(x) && NewestFirst(x, r), keep);
    FilterElements(records, keep);
  }

  lemma GatheringIsEligible(tag: string, other: string, r: StoredPublishRecord)
    requires r in Gathering(tag, other)
    ensures Listed(r, Some(tag)) && FileTakes(Gathering(tag, other), [tag, other], r)
  {
    var records, tags := Gathering(tag, other), [tag, other];
    assert r.signed.tags[0] == tag && tags[0] == tag;
    OverlapIff(r.signed, tags);
    NewerAtMost(records, (x: StoredPublishRecord) => Eligible(x, tags), r);
  }

  lemma OldestOfGathering(tag: string, other: string, keep: StoredPublishRecord -> bool)
    requires forall r :: r in Gathering(tag, other) ==> keep(r)
    ensures Newer(Gathering(tag, other), keep, Gathering(tag, other)[0]) >= DISCOVER_CANDIDATE_LIMIT
  {
    var records := Gathering(tag, other);
    var newer := (x: StoredPublishRecord) => keep(x) && NewestFirst(x, records[0]);
    FilterAll(records[1..], newer);
  }

  /** The oldest record has too many newer ones with its tag. */
  lemma OldestIsCut(tag: string, other: string)
    requires tag != other
    ensures !FirestoreTakes(Gathering(tag, other), [tag, other], Gathering(tag, other)[0])
  {
    forall r | r in Gathering(tag, other)
      ensures Listed(r, Some(tag))
    {
      GatheringIsEligible(tag, other, r);
    }
    OldestOfGathering(tag, other, (x: StoredPublishRecord) => Listed(x, Some(tag)));
  }

  lemma FewWithOther(tag: string, other: string, keep: StoredPublishRecord -> bool)
    requires forall r :: r in Crowd(tag) ==> !keep(r)
    ensures |Filter(Gathering(tag, other), keep)| <= DiscoverQuery.DISCOVER_MAX_LIMIT
  {
    FilterAppend(Crowd(tag), Newcomers(tag, other), keep);
    FilterNone(Crowd(tag), keep);
    FilterElements(Newcomers(tag, other), keep);
  }

  /** Newcomers are few enough for the Firestore store to take them all. */
  lemma NewcomersAreTaken(tag: string, other: string, r: StoredPublishRecord)
    requires tag != other && r in Newcomers(tag, other)
    ensures FirestoreTakes(Gathering(tag, other), [tag, other], r)
  {
    var listed := (x: StoredPublishRecord) => Listed(x, Some(other));
    assert r.signed.tags[1] == other;
    FewWithOther(tag, other, listed);
    NewerAtMost(Gathering(tag, other), listed, r);
    assert SearchTakes(Gathering(tag, other), Some([tag, other][1]), r);
  }

  lemma OverlapOfBoth(record: PublishObject, tag: string, other: string)
    requires record.tags == [tag, other]
    ensures Overlap(record, [tag, other]) == 2
  {
    assert [tag, other][1..] == [other] && [other][1..] == [];
    assert record.tags[0] == tag && record.tags[1] == other;
    assert Overlap(record, [other]) == 1;
  }

  /** They match more of the tags than the crowd, and are as many as the limit. */
  lemma NewcomersOverlap(tag: string, other: string, o: PublishObject)
    requires tag != other && o.tags == [tag]
    ensures MoreOverlap(FileCandidates(Gathering(tag, other), [tag, other]), o, [tag, other])
            >= DiscoverQuery.DISCOVER_MAX_LIMIT
  {
    var records, tags := Gathering(tag, other), [tag, other];
    GatheringIsUnique(tag, other);
    var newcomers, candidates := Objects(Newcomers(tag, other)), FileCandidates(records, tags);
    var more := (c: PublishObject) => Overlap(c, tags) > Overlap(o, tags);
    FilterElements(candidates, more);
    OverlapOfOne(o, tag, other);
    forall c | c in newcomers
      ensures c in Filter(candidates, more)
    {
      var i :| 0 <= i < |newcomers| && newcomers[i] == c;
      var r := Newcomers(tag, other)[i];
      assert r in Newcomers(tag, other);
      OverlapOfBoth(c, tag, other);
      GatheringIsEligible(tag, other, r);
      FileCandidatesIff(records, tags, r);
    }
    DistinctSize(newcomers, Filter(candidates, more));
  }

  lemma GatheringAgrees(tag: string, other: string)
    requires tag != other
    ensures AgreeWithin(Gathering(tag, other), Gathering(tag, other), [tag, other], DiscoverQuery.DISCOVER_MAX_LIMIT)
  {
    var records, tags := Gathering(tag, other), [tag, other];
    var a, b := FileCandidates(records, tags), FirestoreCandidates(records, tags);
    GatheringIsUnique(tag, other);
    CandidatesFrom(records, tags);
    forall o | o in b
      ensures o in a
    {
      var r :| r in records && r.signed == o;
      GatheringIsEligible(tag, other, r);
      FileCandidatesIff(records, tags, r);
    }
    forall o | o in a && o !in b
      ensures MoreOverlap(a, o, tags) >= DiscoverQuery.DISCOVER_MAX_LIMIT
    {
      var r :| r in records && r.signed == o;
      FirestoreCandidatesIff(records, tags, r);
      if r in Newcomers(tag, other) {
        NewcomersAreTaken(tag, other, r);
      } else {
        assert r in Crowd(tag);
        NewcomersOverlap(tag, other, o);
      }
    }
  }

  /**
    201 records with the one tag and 25 newer ones with both: the stores take different candidates,
    and answer alike all the same, whatever the seed, within the limit of requests.
  */
  lemma DifferentCandidatesSameAnswers(tag: string, other: string)
    requires tag != other
    ensures
      var records, tags := Gathering(tag, other), [tag, other];
      && !TakenAlike(records, tags, records[0])
      && forall query: Query :: query.tags == tags && query.limit <= DiscoverQuery.DISCOVER_MAX_LIMIT ==>
           FileDiscover(records, query) == FirestoreDiscover(records, query)
  {
    var records, tags := Gathering(tag, other), [tag, other];
    GatheringIsUnique(tag, other);
    OldestIsCut(tag, other);
    GatheringIsEligible(tag, other, records[0]);
    GatheringAgrees(tag, other);
    StoresAgreeIff(records, records, tags, DiscoverQuery.DISCOVER_MAX_LIMIT);
  }
}
