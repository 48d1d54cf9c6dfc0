/**
  Discover: ranking the candidates for a query, and how the file and the Firestore store choose them.
*/
module Discover {
  import opened Wrappers
  import opened Keys
  import opened Sorting
  import opened PublishRecords
  import opened Pagination
  import opened NamedList
  import opened FilePublishStore

  const DISCOVER_CANDIDATE_LIMIT: nat := 200

  /** The score of an id is a hash of the query's seed and the id. */
  datatype Query = Query(tags: seq<string>, limit: nat, score: string -> nat)

  function Overlap(record: PublishObject, tags: seq<string>): nat {
    if tags == [] then 0 else (if tags[0] in record.tags then 1 else 0) + Overlap(record, tags[1..])
  }

  predicate MatchesTags(record: PublishObject, tags: seq<string>) {
    tags == [] || Overlap(record, tags) > 0
  }

  /** More matching tags first, then the higher score, then the newer record, then the smaller id. */
  predicate RanksBefore(a: PublishObject, b: PublishObject, tags: seq<string>, score: string -> nat) {
    var x, y := Overlap(a, tags), Overlap(b, tags);
    || x > y
    || (x == y && (score(a.id) > score(b.id)
                   || (score(a.id) == score(b.id) && (a.createdAt > b.createdAt
                                                      || (a.createdAt == b.createdAt && TextLess(a.id, b.id))))))
  }

  function Rank(candidates: seq<PublishObject>, query: Query): seq<PublishObject> {
    var matching := Filter(candidates, (r: PublishObject) => MatchesTags(r, query.tags));
    Truncate(Sort(matching, (a: PublishObject, b: PublishObject) => RanksBefore(a, b, query.tags, query.score)),
             query.limit)
  }

  function CandidateLimit(tags: seq<string>): nat {
    DISCOVER_CANDIDATE_LIMIT * (if |tags| == 0 then 1 else |tags|)
  }

  predicate Eligible(record: StoredPublishRecord, tags: seq<string>) {
    Visible(record) && MatchesTags(record.signed, tags)
  }

  /** The newest eligible records, up to the limit for candidates. */
  function FileCandidates(records: seq<StoredPublishRecord>, tags: seq<string>): seq<PublishObject> {
    var eligible := Filter(records, (r: StoredPublishRecord) => Eligible(r, tags));
    Objects(Truncate(Sort(eligible, NewestFirst), CandidateLimit(tags)))
  }

  function FileDiscover(records: seq<StoredPublishRecord>, query: Query): seq<PublishObject> {
    Rank(FileCandidates(records, query.tags), query)
  }

  /** An ordered map by id, as the list of its values: a record replaces the one with its id. */
  function PutById(candidates: seq<PublishObject>, record: PublishObject): seq<PublishObject> {
    if candidates == [] then [record]
    else if candidates[0].id == record.id then [record] + candidates[1..]
    else if TextLess(record.id, candidates[0].id) then [record] + candidates
    else [candidates[0]] + PutById(candidates[1..], record)
  }

  function PutAll(candidates: seq<PublishObject>, records: seq<PublishObject>): seq<PublishObject> {
    if records == [] then candidates
    else PutById(PutAll(candidates, records[..|records| - 1]), records[|records| - 1])
  }

  /** One search per tag, or one without a tag; each for a page of candidates. */
  function FirestoreCandidates(documents: seq<StoredPublishRecord>, tags: seq<string>): seq<PublishObject> {
    if tags == [] then PutAll([], FirestoreSearch(documents, None, DISCOVER_CANDIDATE_LIMIT, None).records)
    else PutPages(documents, tags)
  }

  function PutPages(documents: seq<StoredPublishRecord>, tags: seq<string>): seq<PublishObject> {
    if tags == [] then []
    else
      var n := |tags| - 1;
      PutAll(PutPages(documents, tags[..n]),
             FirestoreSearch(documents, Some(tags[n]), DISCOVER_CANDIDATE_LIMIT, None).records)
  }

  function FirestoreDiscover(documents: seq<StoredPublishRecord>, query: Query): seq<PublishObject> {
    Rank(FirestoreCandidates(documents, query.tags), query)
  }

  // ---------- ranking ----------

  ghost predicate UniqueObjects(records: seq<PublishObject>) {
    forall i, j :: 0 <= i < j < |records| ==> records[i].id != records[j].id
  }

  lemma RankOrder(tags: seq<string>, score: string -> nat)
    ensures StrictWeakOrder((a: PublishObject, b: PublishObject) => RanksBefore(a, b, tags, score))
  {
    TextOrder();
  }

  lemma CandidatesSeparated(candidates: seq<PublishObject>, query: Query)
    requires UniqueObjects(candidates)
    ensures Separated(candidates, (a: PublishObject, b: PublishObject) => RanksBefore(a, b, query.tags, query.score))
  {
    TextOrder();
  }

  /** The ranked list, before it is cut. */
  lemma RankedProperties(candidates: seq<PublishObject>, query: Query)
    requires UniqueObjects(candidates)
    ensures
      var before := (a: PublishObject, b: PublishObject) => RanksBefore(a, b, query.tags, query.score);
      var ranked := Sort(Filter(candidates, (r: PublishObject) => MatchesTags(r, query.tags)), before);
      && Strict(ranked, before)
      && forall r :: r in ranked <==> r in candidates && MatchesTags(r, query.tags)
  {
    var before := (a: PublishObject, b: PublishObject) => RanksBefore(a, b, query.tags, query.score);
    var keep := (r: PublishObject) => MatchesTags(r, query.tags);
    RankOrder(query.tags, query.score);
    CandidatesSeparated(candidates, query);
    FilterSeparated(candidates, keep, before);
    SortStrict(Filter(candidates, keep), before);
    SortElements(Filter(candidates, keep), before);
    FilterElements(candidates, keep);
  }

  /**
    The ranking takes the best of the matching candidates: as many as the limit allows, each ranked
    before every later one and before every matching candidate left out.
  */
  lemma RankTakesBest(candidates: seq<PublishObject>, query: Query)
    requires UniqueObjects(candidates)
    ensures
      var ranking := Rank(candidates, query);
      && |ranking| == Min(query.limit, |Filter(candidates, (r: PublishObject) => MatchesTags(r, query.tags))|)
      && (forall i :: 0 <= i < |ranking| ==> ranking[i] in candidates && MatchesTags(ranking[i], query.tags))
      && (forall i, j :: 0 <= i < j < |ranking| ==> RanksBefore(ranking[i], ranking[j], query.tags, query.score))
      && (forall i, r :: 0 <= i < |ranking| && r in candidates && MatchesTags(r, query.tags) && r !in ranking ==>
            RanksBefore(ranking[i], r, query.tags, query.score))
  {
    var before := (a: PublishObject, b: PublishObject) => RanksBefore(a, b, query.tags, query.score);
    var matching := Filter(candidates, (r: PublishObject) => MatchesTags(r, query.tags));
    var sorted, ranking := Sort(matching, before), Rank(candidates, query);
    RankedProperties(candidates, query);
    SortMultiset(matching, before);
    forall i | 0 <= i < |ranking|
      ensures ranking[i] == sorted[i] && ranking[i] in sorted && sorted[i] in ranking
    {
    }
    forall i, r | 0 <= i < |ranking| && r in sorted && r !in ranking
      ensures before(ranking[i], r)
    {
      var j :| 0 <= j < |sorted| && sorted[j] == r;
    }
  }

  /** Of candidates that all match, the ranking takes those with too few candidates before them. */
  lemma RankTakesIff(candidates: seq<PublishObject>, query: Query, o: PublishObject)
    requires UniqueObjects(candidates) && forall c :: c in candidates ==> MatchesTags(c, query.tags)
    ensures o in Rank(candidates, query)
            <==> o in candidates
                 && |Filter(candidates, (c: PublishObject) => RanksBefore(c, o, query.tags, query.score))| < query.limit
  {
    var before := (a: PublishObject, b: PublishObject) => RanksBefore(a, b, query.tags, query.score);
    RankOrder(query.tags, query.score);
    FilterAll(candidates, (r: PublishObject) => MatchesTags(r, query.tags));
    CandidatesSeparated(candidates, query);
    var earlier := (c: PublishObject) => RanksBefore(c, o, query.tags, query.score);
    AmongFirstIff(candidates, query.limit, before, o, earlier);
  }

  /** The ranking does not depend on the order the candidates come in. */
  lemma RankIgnoresOrder(a: seq<PublishObject>, b: seq<PublishObject>, query: Query)
    requires UniqueObjects(a) && UniqueObjects(b)
    requires forall r :: r in a <==> r in b
    ensures Rank(a, query) == Rank(b, query)
  {
    var before := (a: PublishObject, b: PublishObject) => RanksBefore(a, b, query.tags, query.score);
    var keep := (r: PublishObject) => MatchesTags(r, query.tags);
    RankedProperties(a, query);
    RankedProperties(b, query);
    RankOrder(query.tags, query.score);
    StrictUnique(Sort(Filter(a, keep), before), Sort(Filter(b, keep), before), before);
  }

  // ---------- collecting candidates ----------

  ghost predicate SortedById(records: seq<PublishObject>) {
    forall i, j :: 0 <= i < j < |records| ==> TextLess(records[i].id, records[j].id)
  }

  /** An id names one record, throughout the two lists. */
  ghost predicate IdsAgree(a: seq<PublishObject>, b: seq<PublishObject>) {
    forall r, q :: r in a && q in b && r.id == q.id ==> r == q
  }

  lemma {:induction false} PutByIdProperties(candidates: seq<PublishObject>, record: PublishObject)
    requires SortedById(candidates) && forall r :: r in candidates && r.id == record.id ==> r == record
    ensures SortedById(PutById(candidates, record))
    ensures forall r :: r in PutById(candidates, record) <==> r in candidates || r == record
  {
    TextOrder();
    if candidates != [] {
      assert candidates == [candidates[0]] + candidates[1..];
      if candidates[0].id != record.id && !TextLess(record.id, candidates[0].id) {
        PutByIdProperties(candidates[1..], record);
        var rest := PutById(candidates[1..], record);
        forall j | 0 <= j < |rest|
          ensures TextLess(candidates[0].id, rest[j].id)
        {
          assert rest[j] in rest;
          assert rest[j] in candidates[1..] || rest[j] == record;
        }
      }
    }
  }

  /** Collecting pages of one store gives the union of their records, in order of their ids. */
  lemma {:induction false} PutAllProperties(candidates: seq<PublishObject>, records: seq<PublishObject>)
    requires SortedById(candidates) && IdsAgree(candidates + records, candidates + records)
    ensures SortedById(PutAll(candidates, records))
    ensures forall r :: r in PutAll(candidates, records) <==> r in candidates || r in records
  {
    if records != [] {
      var front, last := records[..|records| - 1], records[|records| - 1];
      assert records == front + [last];
      PutAllProperties(candidates, front);
      PutByIdProperties(PutAll(candidates, front), last);
    }
  }

  // ---------- the two stores ----------

  lemma ObjectsElements(records: seq<StoredPublishRecord>)
    ensures forall r :: r in Objects(records) <==> exists d :: d in records && d.signed == r
  {
    forall d | d in records
      ensures d.signed in Objects(records)
    {
      var i :| 0 <= i < |records| && records[i] == d;
      assert Objects(records)[i] == d.signed;
    }
    forall r | r in Objects(records)
      ensures exists d :: d in records && d.signed == r
    {
      var i :| 0 <= i < |records| && Objects(records)[i] == r;
      assert records[i] in records;
    }
  }

  /** Every record of the list is one of the store. */
  ghost predicate From(objects: seq<PublishObject>, records: seq<StoredPublishRecord>) {
    forall r :: r in objects ==> exists d :: d in records && d.signed == r
  }

  lemma FromUnique(a: seq<PublishObject>, b: seq<PublishObject>, records: seq<StoredPublishRecord>)
    requires UniqueIds(records) && From(a, records) && From(b, records)
    ensures IdsAgree(a, b)
  {
    forall r, q | r in a && q in b && r.id == q.id
      ensures r == q
    {
      var d :| d in records && d.signed == r;
      var e :| e in records && e.signed == q;
      var i :| 0 <= i < |records| && records[i] == d;
      var j :| 0 <= j < |records| && records[j] == e;
    }
  }

  /** The newest listed records, up to the number a search for candidates asks for. */
  function NewestListed(records: seq<StoredPublishRecord>, tag: Option<string>): seq<PublishObject> {
    Objects(Truncate(Ordered(records, tag), DISCOVER_CANDIDATE_LIMIT))
  }

  /** The page of candidates a search gives. */
  lemma SearchCandidates(documents: seq<StoredPublishRecord>, tag: Option<string>)
    ensures FirestoreSearch(documents, tag, DISCOVER_CANDIDATE_LIMIT, None).records
            == NewestListed(documents, tag)
  {
    var tail := Ordered(documents, tag);
    FirestoreSearchTail(documents, tag, DISCOVER_CANDIDATE_LIMIT, None);
    QueryIsEnough(tail, DISCOVER_CANDIDATE_LIMIT, 0);
    TailShape(tail, DISCOVER_CANDIDATE_LIMIT, 0);
    assert tail[..PageSize(DISCOVER_CANDIDATE_LIMIT, 0, |tail|)] == Truncate(tail, DISCOVER_CANDIDATE_LIMIT);
  }

  lemma TruncatedFrom(documents: seq<StoredPublishRecord>, tag: Option<string>)
    requires UniqueIds(documents)
    ensures From(NewestListed(documents, tag), documents)
  {
    var page := Truncate(Ordered(documents, tag), DISCOVER_CANDIDATE_LIMIT);
    OrderedProperties(documents, tag);
    ObjectsElements(page);
    assert forall d :: d in page ==> d in Ordered(documents, tag);
  }

  lemma SortedIsUnique(objects: seq<PublishObject>)
    requires SortedById(objects)
    ensures UniqueObjects(objects)
  {
    TextOrder();
  }

  ghost predicate OnSomePage(documents: seq<StoredPublishRecord>, tags: seq<string>, r: PublishObject) {
    exists k :: 0 <= k < |tags| && r in NewestListed(documents, Some(tags[k]))
  }

  lemma OnPageOfLast(documents: seq<StoredPublishRecord>, front: seq<string>, tag: string, r: PublishObject)
    ensures OnSomePage(documents, front + [tag], r)
            <==> OnSomePage(documents, front, r) || r in NewestListed(documents, Some(tag))
  {
    var tags := front + [tag];
    assert tags[|front|] == tag;
    if OnSomePage(documents, front, r) {
      var k :| 0 <= k < |front| && r in NewestListed(documents, Some(front[k]));
      assert tags[k] == front[k];
    }
  }

  /** What the pages of the tags' searches hold, all together. */
  lemma {:induction false} PagesHold(documents: seq<StoredPublishRecord>, tags: seq<string>)
    requires UniqueIds(documents)
    ensures SortedById(PutPages(documents, tags)) && From(PutPages(documents, tags), documents)
    ensures forall r :: r in PutPages(documents, tags) <==> OnSomePage(documents, tags, r)
  {
    if tags != [] {
      var front, tag := tags[..|tags| - 1], tags[|tags| - 1];
      PagesHold(documents, front);
      OneMorePage(documents, PutPages(documents, front), tag);
      assert front + [tag] == tags;
      forall r
        ensures OnSomePage(documents, tags, r)
                <==> OnSomePage(documents, front, r) || r in NewestListed(documents, Some(tag))
      {
        OnPageOfLast(documents, front, tag, r);
      }
    }
  }

  lemma OneMorePage(documents: seq<StoredPublishRecord>, before: seq<PublishObject>, tag: string)
    requires UniqueIds(documents) && SortedById(before) && From(before, documents)
    ensures
      var after := PutAll(before, FirestoreSearch(documents, Some(tag), DISCOVER_CANDIDATE_LIMIT, None).records);
      && SortedById(after) && From(after, documents)
      && forall r :: r in after <==> r in before || r in NewestListed(documents, Some(tag))
  {
    var page := NewestListed(documents, Some(tag));
    SearchCandidates(documents, Some(tag));
    TruncatedFrom(documents, Some(tag));
    FromUnique(before + page, before + page, documents);
    PutAllProperties(before, page);
  }

  lemma {:induction false} OverlapIff(record: PublishObject, tags: seq<string>)
    ensures Overlap(record, tags) > 0 <==> exists k :: 0 <= k < |tags| && tags[k] in record.tags
  {
    if tags != [] {
      OverlapIff(record, tags[1..]);
      assert tags == [tags[0]] + tags[1..];
    }
  }

  /** How many records are shown and match any of the tags. */
  function Matching(records: seq<StoredPublishRecord>, tags: seq<string>): nat {
    |Filter(records, (r: StoredPublishRecord) => Eligible(r, tags))|
  }

  lemma SameCount(records: seq<StoredPublishRecord>, documents: seq<StoredPublishRecord>,
                  keep: StoredPublishRecord -> bool)
    requires UniqueIds(records) && UniqueIds(documents)
    requires forall r :: r in records <==> r in documents
    ensures |Filter(records, keep)| == |Filter(documents, keep)|
  {
    NewestFirstOf(records, keep);
    NewestFirstOf(documents, keep);
    NewestFirstOrder();
    StrictUnique(Sort(Filter(records, keep), NewestFirst), Sort(Filter(documents, keep), NewestFirst), NewestFirst);
  }

  lemma FileCandidatesUnique(records: seq<StoredPublishRecord>, tags: seq<string>)
    requires UniqueIds(records)
    ensures UniqueObjects(FileCandidates(records, tags))
  {
    NewestFirstOf(records, (r: StoredPublishRecord) => Eligible(r, tags));
  }

  lemma FirestoreCandidatesUnique(documents: seq<StoredPublishRecord>, tags: seq<string>)
    requires UniqueIds(documents)
    ensures UniqueObjects(FirestoreCandidates(documents, tags))
    ensures tags == [] ==> forall o :: o in FirestoreCandidates(documents, tags) <==> o in NewestListed(documents, None)
  {
    if tags == [] {
      var page := NewestListed(documents, None);
      SearchCandidates(documents, None);
      TruncatedFrom(documents, None);
      assert [] + page == page;
      FromUnique(page, page, documents);
      PutAllProperties([], page);
    } else {
      PagesHold(documents, tags);
    }
    SortedIsUnique(FirestoreCandidates(documents, tags));
  }

  function NewerEligible(records: seq<StoredPublishRecord>, tags: seq<string>, r: StoredPublishRecord): nat {
    Newer(records, (x: StoredPublishRecord) => Eligible(x, tags), r)
  }

  /** The file store takes what is shown and matches, unless 200 newer ones for each tag do. */
  predicate FileTakes(records: seq<StoredPublishRecord>, tags: seq<string>, r: StoredPublishRecord) {
    Eligible(r, tags) && NewerEligible(records, tags, r) < CandidateLimit(tags)
  }

  predicate SearchTakes(records: seq<StoredPublishRecord>, tag: Option<string>, r: StoredPublishRecord) {
    Listed(r, tag) && NewerListed(records, tag, r) < DISCOVER_CANDIDATE_LIMIT
  }

  /** The Firestore store takes what is among the newest 200 shown of one of the tags. */
  predicate FirestoreTakes(records: seq<StoredPublishRecord>, tags: seq<string>, r: StoredPublishRecord) {
    if tags == [] then SearchTakes(records, None, r)
    else exists k :: 0 <= k < |tags| && SearchTakes(records, Some(tags[k]), r)
  }

  lemma FileCandidatesIff(records: seq<StoredPublishRecord>, tags: seq<string>, r: StoredPublishRecord)
    requires UniqueIds(records) && r in records
    ensures r.signed in FileCandidates(records, tags) <==> FileTakes(records, tags, r)
  {
    var eligible := (x: StoredPublishRecord) => Eligible(x, tags);
    CutIff(records, eligible, CandidateLimit(tags), r);
  }

  /** Whether the object of a record is among those of the newest n that are picked. */
  lemma CutIff(records: seq<StoredPublishRecord>, keep: StoredPublishRecord -> bool, n: nat, r: StoredPublishRecord)
    requires UniqueIds(records) && r in records
    ensures r.signed in Objects(Truncate(Sort(Filter(records, keep), NewestFirst), n))
            <==> keep(r) && Newer(records, keep, r) < n
  {
    var newest := Truncate(Sort(Filter(records, keep), NewestFirst), n);
    ObjectsElements(newest);
    AmongNewestIff(records, keep, n, r);
    if r.signed in Objects(newest) {
      var d :| d in newest && d.signed == r.signed;
      AmongNewestIff(records, keep, n, d);
      SameRecord(records, d, r);
    }
  }

  /** An id names one record. */
  lemma SameRecord(records: seq<StoredPublishRecord>, a: StoredPublishRecord, b: StoredPublishRecord)
    requires UniqueIds(records) && a in records && b in records && a.signed.id == b.signed.id
    ensures a == b
  {
    var i :| 0 <= i < |records| && records[i] == a;
    var j :| 0 <= j < |records| && records[j] == b;
  }

  lemma FirestoreCandidatesIff(documents: seq<StoredPublishRecord>, tags: seq<string>, r: StoredPublishRecord)
    requires UniqueIds(documents) && r in documents
    ensures r.signed in FirestoreCandidates(documents, tags) <==> FirestoreTakes(documents, tags, r)
  {
    FirestoreCandidatesUnique(documents, tags);
    if tags == [] {
      CutIff(documents, (x: StoredPublishRecord) => Listed(x, None), DISCOVER_CANDIDATE_LIMIT, r);
    } else {
      PagesHold(documents, tags);
      forall k | 0 <= k < |tags|
        ensures r.signed in NewestListed(documents, Some(tags[k])) <==> SearchTakes(documents, Some(tags[k]), r)
      {
        CutIff(documents, (x: StoredPublishRecord) => Listed(x, Some(tags[k])), DISCOVER_CANDIDATE_LIMIT, r);
      }
    }
  }

  lemma CandidatesFrom(records: seq<StoredPublishRecord>, tags: seq<string>)
    requires UniqueIds(records)
    ensures From(FileCandidates(records, tags), records) && From(FirestoreCandidates(records, tags), records)
  {
    var eligible := (x: StoredPublishRecord) => Eligible(x, tags);
    var newest := Sort(Filter(records, eligible), NewestFirst);
    NewestFirstOf(records, eligible);
    ObjectsElements(Truncate(newest, CandidateLimit(tags)));
    assert forall d :: d in Truncate(newest, CandidateLimit(tags)) ==> d in newest;
    FirestoreCandidatesUnique(records, tags);
    TruncatedFrom(records, None);
    PagesHold(records, tags);
  }

  lemma SameNewer(records: seq<StoredPublishRecord>, documents: seq<StoredPublishRecord>,
                  keep: StoredPublishRecord -> bool, r: StoredPublishRecord)
    requires UniqueIds(records) && UniqueIds(documents) && forall d :: d in records <==> d in documents
    ensures Newer(records, keep, r) == Newer(documents, keep, r)
  {
    SameCount(records, documents, (x: StoredPublishRecord) => keep(x) && NewestFirst(x, r));
  }

  lemma NewerAgrees(records: seq<StoredPublishRecord>, p: StoredPublishRecord -> bool, q: StoredPublishRecord -> bool,
                    r: StoredPublishRecord)
    requires forall x :: p(x) <==> q(x)
    ensures Newer(records, p, r) == Newer(records, q, r)
  {
    FilterAgrees(records, (x: StoredPublishRecord) => p(x) && NewestFirst(x, r),
                 (x: StoredPublishRecord) => q(x) && NewestFirst(x, r));
  }

  lemma SameTaken(records: seq<StoredPublishRecord>, documents: seq<StoredPublishRecord>, tags: seq<string>,
                  r: StoredPublishRecord)
    requires UniqueIds(records) && UniqueIds(documents) && forall d :: d in records <==> d in documents
    ensures FirestoreTakes(records, tags, r) <==> FirestoreTakes(documents, tags, r)
  {
    forall tag: Option<string>
      ensures SearchTakes(records, tag, r) <==> SearchTakes(documents, tag, r)
    {
      SameNewer(records, documents, (x: StoredPublishRecord) => Listed(x, tag), r);
    }
  }

  /** Both stores take the record as a candidate, or neither does. */
  predicate TakenAlike(records: seq<StoredPublishRecord>, tags: seq<string>, r: StoredPublishRecord) {
    FileTakes(records, tags, r) <==> FirestoreTakes(records, tags, r)
  }

  lemma TakenAlikeIff(records: seq<StoredPublishRecord>, documents: seq<StoredPublishRecord>, tags: seq<string>,
                      r: StoredPublishRecord)
    requires UniqueIds(records) && UniqueIds(documents) && (forall d :: d in records <==> d in documents)
    requires r in records
    ensures TakenAlike(records, tags, r)
            <==> (r.signed in FileCandidates(records, tags) <==> r.signed in FirestoreCandidates(documents, tags))
  {
    FileCandidatesIff(records, tags, r);
    FirestoreCandidatesIff(documents, tags, r);
    SameTaken(records, documents, tags, r);
  }

  lemma SameCandidatesIff(records: seq<StoredPublishRecord>, documents: seq<StoredPublishRecord>, tags: seq<string>)
    requires UniqueIds(records) && UniqueIds(documents) && forall d :: d in records <==> d in documents
    ensures (forall o :: o in FileCandidates(records, tags) <==> o in FirestoreCandidates(documents, tags))
            <==> forall r :: r in records ==> TakenAlike(records, tags, r)
  {
    CandidatesFrom(records, tags);
    CandidatesFrom(documents, tags);
    forall r | r in records
      ensures TakenAlike(records, tags, r)
              <==> (r.signed in FileCandidates(records, tags) <==> r.signed in FirestoreCandidates(documents, tags))
    {
      TakenAlikeIff(records, documents, tags, r);
    }
  }

  /** With a limit for all, the ranking returns all candidates, when all of them match. */
  lemma RankReturnsAll(candidates: seq<PublishObject>, query: Query, o: PublishObject)
    requires UniqueObjects(candidates) && |candidates| < query.limit
    requires forall c :: c in candidates ==> MatchesTags(c, query.tags)
    ensures o in Rank(candidates, query) <==> o in candidates
  {
    var earlier := (c: PublishObject) => RanksBefore(c, o, query.tags, query.score);
    RankTakesIff(candidates, query, o);
    FilterElements(candidates, earlier);
  }

  lemma CandidatesMatch(records: seq<StoredPublishRecord>, tags: seq<string>)
    requires UniqueIds(records)
    ensures forall c :: c in FileCandidates(records, tags) || c in FirestoreCandidates(records, tags) ==>
              MatchesTags(c, tags)
  {
    CandidatesFrom(records, tags);
    forall c | c in FileCandidates(records, tags) || c in FirestoreCandidates(records, tags)
      ensures MatchesTags(c, tags)
    {
      var r :| r in records && r.signed == c;
      FileCandidatesIff(records, tags, r);
      FirestoreCandidatesIff(records, tags, r);
      OverlapIff(c, tags);
    }
  }

  /**
    Both stores answer alike every discover request with these tags, of any limit, iff each takes the
    same records as candidates: those among the newest 200 for each tag of all that match, and those
    among the newest 200 of one of the tags.
  */
  lemma StoresAlwaysAgreeIff(records: seq<StoredPublishRecord>, documents: seq<StoredPublishRecord>, tags: seq<string>)
    requires UniqueIds(records) && UniqueIds(documents) && forall d :: d in records <==> d in documents
    ensures (forall query: Query :: query.tags == tags ==>
              FileDiscover(records, query) == FirestoreDiscover(documents, query))
            <==> forall r :: r in records ==> TakenAlike(records, tags, r)
  {
    var a, b := FileCandidates(records, tags), FirestoreCandidates(documents, tags);
    SameCandidatesIff(records, documents, tags);
    FileCandidatesUnique(records, tags);
    FirestoreCandidatesUnique(documents, tags);
    if forall o :: o in a <==> o in b {
      forall query: Query | query.tags == tags
        ensures FileDiscover(records, query) == FirestoreDiscover(documents, query)
      {
        RankIgnoresOrder(a, b, query);
      }
    } else {
      var o :| !(o in a <==> o in b);
      var query := Query(tags, |a| + |b| + 1, (id: string) => 0);
      CandidatesMatch(records, tags);
      CandidatesMatch(documents, tags);
      RankReturnsAll(a, query, o);
      RankReturnsAll(b, query, o);
      assert FileDiscover(records, query) != FirestoreDiscover(documents, query);
    }
  }

  /** A record that is picked has fewer newer ones than are picked. */
  lemma NewerThanPicked(records: seq<StoredPublishRecord>, keep: StoredPublishRecord -> bool, r: StoredPublishRecord)
    requires UniqueIds(records) && r in records && keep(r)
    ensures Newer(records, keep, r) < |Filter(records, keep)|
  {
    NewestFirstOf(records, keep);
    AmongNewestIff(records, keep, |Filter(records, keep)|, r);
  }

  /** With at most one tag, or at most 200 records that are shown and match, the candidates are the same. */
  lemma FewTakenAlike(records: seq<StoredPublishRecord>, tags: seq<string>, r: StoredPublishRecord)
    requires UniqueIds(records) && r in records
    requires |tags| <= 1 || Matching(records, tags) <= DISCOVER_CANDIDATE_LIMIT
    ensures TakenAlike(records, tags, r)
  {
    if |tags| <= 1 {
      OneTagTaken(records, tags, r);
    } else {
      OverlapIff(r.signed, tags);
      if Eligible(r, tags) {
        NewerThanPicked(records, (x: StoredPublishRecord) => Eligible(x, tags), r);
        var k :| 0 <= k < |tags| && tags[k] in r.signed.tags;
        ListedAreFew(records, tags, k);
        NewerThanPicked(records, (x: StoredPublishRecord) => Listed(x, Some(tags[k])), r);
        assert SearchTakes(records, Some(tags[k]), r);
      }
    }
  }

  lemma OneTagTaken(records: seq<StoredPublishRecord>, tags: seq<string>, r: StoredPublishRecord)
    requires |tags| <= 1
    ensures TakenAlike(records, tags, r)
  {
    var tag := if tags == [] then None else Some(tags[0]);
    forall x: StoredPublishRecord
      ensures Eligible(x, tags) <==> Listed(x, tag)
    {
      OverlapIff(x.signed, tags);
    }
    NewerAgrees(records, (x: StoredPublishRecord) => Eligible(x, tags), (x: StoredPublishRecord) => Listed(x, tag), r);
    assert tags != [] ==> FirestoreTakes(records, tags, r) == SearchTakes(records, Some(tags[0]), r);
  }

  lemma ListedAreFew(records: seq<StoredPublishRecord>, tags: seq<string>, k: nat)
    requires k < |tags|
    ensures |Filter(records, (x: StoredPublishRecord) => Listed(x, Some(tags[k])))| <= Matching(records, tags)
  {
    forall x: StoredPublishRecord | Listed(x, Some(tags[k]))
      ensures Eligible(x, tags)
    {
      OverlapIff(x.signed, tags);
    }
    FilterMonotone(records, (x: StoredPublishRecord) => Listed(x, Some(tags[k])),
                   (x: StoredPublishRecord) => Eligible(x, tags));
  }

  /**
    So both stores answer a discover request alike, for every store, limit and score, when there is at
    most one tag, or at most 200 records are shown and match.
  */
  lemma StoresAgree(records: seq<StoredPublishRecord>, documents: seq<StoredPublishRecord>, query: Query)
    requires UniqueIds(records) && UniqueIds(documents)
    requires forall r :: r in records <==> r in documents
    requires |query.tags| <= 1 || Matching(records, query.tags) <= DISCOVER_CANDIDATE_LIMIT
    ensures FileDiscover(records, query) == FirestoreDiscover(documents, query)
  {
    forall r | r in records
      ensures TakenAlike(records, query.tags, r)
    {
      FewTakenAlike(records, query.tags, r);
    }
    StoresAlwaysAgreeIff(records, documents, query.tags);
  }

  /** 201 visible records with the one tag, from the oldest to the newest. */
  function Crowd(tag: string): (records: seq<StoredPublishRecord>)
    ensures records != [] && records[0].signed.id == "" && records[0].signed.createdAt == 0
    ensures forall i :: 0 <= i < |records| ==> |records[i].signed.id| <= DISCOVER_CANDIDATE_LIMIT
    ensures |records| == DISCOVER_CANDIDATE_LIMIT + 1 && UniqueIds(records)
    ensures forall i :: 0 <= i < |records| ==> Listed(records[i], Some(tag)) && records[i].signed.tags == [tag]
    ensures forall i :: 0 < i < |records| ==> NewestFirst(records[i], records[0])
  {
    seq(DISCOVER_CANDIDATE_LIMIT + 1, (i: nat) =>
      NewRecord(PublishObject(seq(i, _ => 'x'), i, "", [tag], "")))
  }

  /** Of such a crowd, and with a second tag in the query, only the file store takes the oldest record. */
  lemma CrowdTakenDifferently(tag: string, other: string)
    requires tag != other
    ensures FileTakes(Crowd(tag), [tag, other], Crowd(tag)[0])
    ensures !FirestoreTakes(Crowd(tag), [tag, other], Crowd(tag)[0])
  {
    var records, tags := Crowd(tag), [tag, other];
    OldestOfCrowd(tag, (x: StoredPublishRecord) => Eligible(x, tags));
    OldestOfCrowd(tag, (x: StoredPublishRecord) => Listed(x, Some(tag)));
  }

  lemma OldestOfCrowd(tag: string, keep: StoredPublishRecord -> bool)
    requires forall r :: r in Crowd(tag) ==> keep(r)
    ensures Newer(Crowd(tag), keep, Crowd(tag)[0]) == DISCOVER_CANDIDATE_LIMIT
  {
    var records := Crowd(tag);
    var newer := (x: StoredPublishRecord) => keep(x) && NewestFirst(x, records[0]);
    KeyOrder();
    FilterAll(records[1..], newer);
    assert Filter(records, newer) == Filter(records[1..], newer);
  }

  /** A query with two tags whose seed gives the oldest record of the crowd the highest score. */
  function OldestFirstQuery(tag: string, other: string, limit: nat): Query {
    Query([tag, other], limit, (id: string) => if id == "" then 1 else 0)
  }

  lemma OverlapOfOne(record: PublishObject, tag: string, other: string)
    requires tag != other && record.tags == [tag]
    ensures Overlap(record, [tag, other]) == 1
  {
    assert [tag, other][1..] == [other] && [other][1..] == [];
    assert record.tags[0] == tag;
    assert Overlap(record, [other]) == 0;
  }

  /** Under its score no record of the crowd ranks before the oldest. */
  lemma OldestRanksFirst(tag: string, other: string, limit: nat, r: StoredPublishRecord)
    requires tag != other && r in Crowd(tag)
    ensures
      var query := OldestFirstQuery(tag, other, limit);
      !RanksBefore(r.signed, Crowd(tag)[0].signed, query.tags, query.score)
  {
    var oldest := Crowd(tag)[0];
    OverlapOfOne(r.signed, tag, other);
    OverlapOfOne(oldest.signed, tag, other);
    if r.signed.id == "" {
      SameRecord(Crowd(tag), r, oldest);
      TextTrichotomy("", "");
    }
  }

  /** So for some queries with two tags, whatever the limit, their answers differ. */
  lemma StoresCanDiffer(tag: string, other: string, limit: nat)
    requires tag != other && limit >= 1
    ensures
      var query := OldestFirstQuery(tag, other, limit);
      && Crowd(tag)[0].signed in FileDiscover(Crowd(tag), query)
      && Crowd(tag)[0].signed !in FirestoreDiscover(Crowd(tag), query)
  {
    var records, query := Crowd(tag), OldestFirstQuery(tag, other, limit);
    var o := records[0].signed;
    var earlier := (c: PublishObject) => RanksBefore(c, o, query.tags, query.score);
    CrowdTakenDifferently(tag, other);
    FileCandidatesIff(records, query.tags, records[0]);
    FirestoreCandidatesIff(records, query.tags, records[0]);
    FileCandidatesUnique(records, query.tags);
    FirestoreCandidatesUnique(records, query.tags);
    CandidatesFrom(records, query.tags);
    CandidatesMatch(records, query.tags);
    RankTakesIff(FirestoreCandidates(records, query.tags), query, o);
    RankTakesIff(FileCandidates(records, query.tags), query, o);
    forall c | c in FileCandidates(records, query.tags)
      ensures !earlier(c)
    {
      var r :| r in records && r.signed == c;
      OldestRanksFirst(tag, other, limit, r);
    }
    FilterNone(FileCandidates(records, query.tags), earlier);
  }

  // ---------- discover and history ----------

  /** How many candidates rank before the object. */
  function RankedBefore(records: seq<StoredPublishRecord>, query: Query, o: PublishObject): nat {
    |Filter(FileCandidates(records, query.tags), (c: PublishObject) => RanksBefore(c, o, query.tags, query.score))|
  }

  /** The candidates are the objects published last that history shows and that match, if not too old. */
  lemma CandidatesByHistory(h: History, records: seq<StoredPublishRecord>, tags: seq<string>, o: PublishObject)
    requires UniqueNames(records, IdOf) && ById(records) == Docs(h)
    ensures o in FileCandidates(records, tags) <==>
      && Shown(h, o.id) && LastPublished(h, o.id, o) && MatchesTags(o, tags)
      && o.id in Docs(h) && NewerEligible(records, tags, Docs(h)[o.id]) < CandidateLimit(tags)
  {
    CandidatesFrom(records, tags);
    if Shown(h, o.id) {
      ShownIsRecord(h, records, o.id);
      RecordByHistory(h, records, Docs(h)[o.id]);
      FileCandidatesIff(records, tags, Docs(h)[o.id]);
    }
    if o in FileCandidates(records, tags) {
      var r :| r in records && r.signed == o;
      FileCandidatesIff(records, tags, r);
      RecordByHistory(h, records, r);
    }
  }

  /**
    Discover returns exactly the objects published last that history shows and that match a tag,
    unless as many newer ones match as there may be candidates, or the limit is filled by candidates
    that rank before it.
  */
  lemma DiscoverShowsHistory(h: History, records: seq<StoredPublishRecord>, query: Query, o: PublishObject)
    requires UniqueNames(records, IdOf) && ById(records) == Docs(h)
    ensures o in FileDiscover(records, query) <==>
      && Shown(h, o.id) && LastPublished(h, o.id, o) && MatchesTags(o, query.tags)
      && o.id in Docs(h) && NewerEligible(records, query.tags, Docs(h)[o.id]) < CandidateLimit(query.tags)
      && RankedBefore(records, query, o) < query.limit
  {
    FileCandidatesUnique(records, query.tags);
    forall c | c in FileCandidates(records, query.tags)
      ensures MatchesTags(c, query.tags)
    {
      CandidatesByHistory(h, records, query.tags, c);
    }
    RankTakesIff(FileCandidates(records, query.tags), query, o);
    CandidatesByHistory(h, records, query.tags, o);
  }
}
