/**
  What publish search, walks of search pages and discover answer, by the fields of the records: who is
  on a page, in what order, and who is left out for whom.
*/
module SearchAnswers {
  import opened Wrappers
  import opened Keys
  import opened Sorting
  import opened PublishRecords
  import opened Pagination
  import opened Discover

  /** Neither deleted nor hidden, and with the tag when one is asked for. */
  predicate IsShown(r: StoredPublishRecord, tag: Option<string>) {
    !r.deleted && !r.hidden && (tag.Some? ==> tag.value in r.signed.tags)
  }

  /** Newer by the time of creation, and at equal times by the greater id. */
  predicate IsNewer(a: PublishObject, b: PublishObject) {
    a.createdAt > b.createdAt || (a.createdAt == b.createdAt && TextLess(b.id, a.id))
  }

  // ---------- one page ----------

  /** A shown record of the store that is older than the cursor when there is one. */
  ghost predicate Due(r: StoredPublishRecord, records: seq<StoredPublishRecord>, tag: Option<string>,
                      cursor: Option<Cursor>)
  {
    && r in records && IsShown(r, tag)
    && (cursor.Some? ==>
          || r.signed.createdAt < cursor.value.createdAt
          || (r.signed.createdAt == cursor.value.createdAt && TextLess(r.signed.id, cursor.value.id)))
  }

  ghost predicate LeftOut(r: StoredPublishRecord, page: Page, records: seq<StoredPublishRecord>, tag: Option<string>,
                          cursor: Option<Cursor>)
  {
    Due(r, records, tag, cursor) && r.signed !in page.records
  }

  /**
    A page has the newest records that are due, newest first: as many as the limit allows, and as the
    10000 of a walk leave. It says that there are more iff one that is due is not on it and the walk may
    go on, and then gives the time and id of its last record, and the number seen, to go on from.
  */
  ghost predicate PageByFields(page: Page, records: seq<StoredPublishRecord>, tag: Option<string>, limit: nat,
                               cursor: Option<Cursor>)
  {
    var seen := if cursor.None? then 0 else if cursor.value.seen > 10_000 then 10_000 else cursor.value.seen;
    var count := |page.records|;
    && count <= limit && seen + count <= 10_000
    && (forall i, j :: 0 <= i < j < count ==> IsNewer(page.records[i], page.records[j]))
    && (forall o :: o in page.records ==> exists r :: Due(r, records, tag, cursor) && r.signed == o)
    && (forall r :: LeftOut(r, page, records, tag, cursor) ==>
          && (count == limit || seen + count == 10_000)
          && forall o :: o in page.records ==> IsNewer(o, r.signed))
    && (page.hasMore <==> (exists r :: LeftOut(r, page, records, tag, cursor)) && seen + count < 10_000)
    && page.nextCursor == (if page.hasMore && count > 0 then
                             var last := page.records[count - 1];
                             Some(Cursor(last.createdAt, last.id, seen + count))
                           else None)
  }

  /** The first `size` of a strict tail are on the page, and the others are older than all of them. */
  lemma PagePrefix(page: Page, tail: seq<StoredPublishRecord>, size: nat)
    requires Strict(tail, NewestFirst) && UniqueIds(tail) && size <= |tail| && page.records == Objects(tail[..size])
    ensures forall i, j :: 0 <= i < j < size ==> IsNewer(page.records[i], page.records[j])
    ensures forall o :: o in page.records ==> exists r :: r in tail && r.signed == o
    ensures forall i :: 0 <= i < |tail| ==> (tail[i].signed in page.records <==> i < size)
    ensures forall r, o :: r in tail && r.signed !in page.records && o in page.records ==> IsNewer(o, r.signed)
  {
    forall i, j | 0 <= i < j < |tail|
      ensures IsNewer(tail[i].signed, tail[j].signed)
    {
      assert NewestFirst(tail[i], tail[j]);
    }
    forall i | 0 <= i < |tail|
      ensures tail[i].signed in page.records <==> i < size
    {
      if i < size {
        assert page.records[i] == tail[i].signed;
      }
    }
    forall r, o | r in tail && r.signed !in page.records && o in page.records
      ensures IsNewer(o, r.signed)
    {
      var i :| 0 <= i < size && page.records[i] == o;
      var j :| 0 <= j < |tail| && tail[j] == r;
      assert j >= size;
    }
  }

  lemma TailIsDue(records: seq<StoredPublishRecord>, tag: Option<string>, cursor: Option<Cursor>)
    requires UniqueIds(records)
    ensures forall r :: r in Tail(records, tag, cursor) <==> Due(r, records, tag, cursor)
  {
    TailProperties(records, tag, cursor);
  }

  /** Some record of a tail is left out iff the page is not all of it. */
  lemma LeftOutIff(page: Page, tail: seq<StoredPublishRecord>, size: nat, records: seq<StoredPublishRecord>,
                   tag: Option<string>, cursor: Option<Cursor>)
    requires size <= |tail|
    requires forall r :: r in tail <==> Due(r, records, tag, cursor)
    requires forall i :: 0 <= i < |tail| ==> (tail[i].signed in page.records <==> i < size)
    ensures (exists r :: LeftOut(r, page, records, tag, cursor)) <==> size < |tail|
  {
    if size < |tail| {
      assert LeftOut(tail[size], page, records, tag, cursor);
    }
  }

  /** How many records a page takes of a tail, and what it says of the rest. */
  ghost predicate CutOf(page: Page, tail: seq<StoredPublishRecord>, limit: nat, seen: nat) {
    var size := |page.records|;
    && size <= |tail| && page.records == Objects(tail[..size])
    && size <= limit && seen + size <= 10_000
    && (size < |tail| ==> size == limit || seen + size == 10_000)
    && (page.hasMore <==> size < |tail| && seen + size < 10_000)
    && page.nextCursor == (if page.hasMore && size > 0 then
                             var last := page.records[size - 1];
                             Some(Cursor(last.createdAt, last.id, seen + size))
                           else None)
  }

  lemma TailCut(tail: seq<StoredPublishRecord>, limit: nat, seen: nat)
    ensures CutOf(PageFromOrderedTail(tail, limit, seen), tail, limit, if seen > 10_000 then 10_000 else seen)
  {
    var page := PageFromOrderedTail(tail, limit, seen);
    assert page.records == Objects(tail[..|page.records|]);
  }

  lemma CutPage(page: Page, tail: seq<StoredPublishRecord>, records: seq<StoredPublishRecord>, tag: Option<string>,
                limit: nat, cursor: Option<Cursor>)
    requires Strict(tail, NewestFirst) && UniqueIds(tail)
    requires forall r :: r in tail <==> Due(r, records, tag, cursor)
    requires CutOf(page, tail, limit,
                   if cursor.None? then 0 else if cursor.value.seen > 10_000 then 10_000 else cursor.value.seen)
    ensures PageByFields(page, records, tag, limit, cursor)
  {
    PagePrefix(page, tail, |page.records|);
    LeftOutIff(page, tail, |page.records|, records, tag, cursor);
  }

  lemma TailPage(tail: seq<StoredPublishRecord>, records: seq<StoredPublishRecord>, tag: Option<string>, limit: nat,
                 cursor: Option<Cursor>)
    requires UniqueIds(records) && tail == Tail(records, tag, cursor)
    ensures PageByFields(PageFromOrderedTail(tail, limit, SeenBefore(cursor)), records, tag, limit, cursor)
  {
    TailProperties(records, tag, cursor);
    TailIsDue(records, tag, cursor);
    TailCut(tail, limit, SeenBefore(cursor));
    CutPage(PageFromOrderedTail(tail, limit, SeenBefore(cursor)), tail, records, tag, limit, cursor);
  }

  /** Every page of the file store is what the fields of its records say, for all limits and cursors. */
  lemma FilePage(records: seq<StoredPublishRecord>, tag: Option<string>, limit: nat, cursor: Option<Cursor>)
    requires UniqueIds(records)
    ensures PageByFields(FileSearch(records, tag, limit, cursor), records, tag, limit, cursor)
  {
    FileSearchTail(records, tag, limit, cursor);
    TailPage(Tail(records, tag, cursor), records, tag, limit, cursor);
  }

  /** And every page of the Firestore store, but for a limit of zero, with which it never has more. */
  lemma FirestorePage(documents: seq<StoredPublishRecord>, tag: Option<string>, limit: nat, cursor: Option<Cursor>)
    requires UniqueIds(documents)
    ensures limit >= 1 ==> PageByFields(FirestoreSearch(documents, tag, limit, cursor), documents, tag, limit, cursor)
    ensures limit == 0 ==> FirestoreSearch(documents, tag, limit, cursor) == Page([], None, false)
  {
    if limit >= 1 {
      SamePageIff(documents, documents, tag, limit, cursor);
      FilePage(documents, tag, limit, cursor);
    }
  }

  // ---------- counting ----------

  /** The records of the store that a test picks and that are newer than this one. */
  ghost function NewerSet(records: seq<StoredPublishRecord>, keep: StoredPublishRecord -> bool,
                          r: StoredPublishRecord): set<StoredPublishRecord>
  {
    set x | x in records && keep(x) && IsNewer(x.signed, r.signed)
  }

  ghost function Picked<T(!new)>(items: seq<T>, keep: T -> bool): set<T> {
    set x | x in items && keep(x)
  }

  lemma PickedCons<T(!new)>(items: seq<T>, keep: T -> bool)
    requires items != [] && items[0] !in items[1..]
    ensures items[0] !in Picked(items[1..], keep)
    ensures Picked(items, keep)
            == if keep(items[0]) then Picked(items[1..], keep) + {items[0]} else Picked(items[1..], keep)
  {
    assert items == [items[0]] + items[1..];
  }

  /** In a list without repetitions as many are picked as there are in the set of those picked. */
  lemma {:induction false} PickedSize<T(!new)>(items: seq<T>, keep: T -> bool)
    requires forall i, j :: 0 <= i < j < |items| ==> items[i] != items[j]
    ensures |Filter(items, keep)| == |Picked(items, keep)|
  {
    if items == [] {
      assert Picked(items, keep) == {};
    } else {
      PickedSize(items[1..], keep);
      PickedCons(items, keep);
    }
  }

  lemma NewerIsSet(records: seq<StoredPublishRecord>, keep: StoredPublishRecord -> bool, r: StoredPublishRecord)
    requires UniqueIds(records)
    ensures Newer(records, keep, r) == |NewerSet(records, keep, r)|
  {
    var newer := (x: StoredPublishRecord) => keep(x) && NewestFirst(x, r);
    PickedSize(records, newer);
    assert Picked(records, newer) == NewerSet(records, keep, r);
  }

  // ---------- a walk over a fixed store ----------

  /**
    A finished walk over a store returns, newest first, the shown records of it that fewer than 10000
    shown ones are newer than; each once, and nothing else.
  */
  lemma WalkByFields(records: seq<StoredPublishRecord>, stores: seq<seq<StoredPublishRecord>>, limits: seq<nat>,
                     tag: Option<string>, pages: seq<Pagination.Page>)
    requires UniqueIds(records) && IsWalk(stores, limits, tag, pages) && Finished(pages)
    requires AlwaysStore(stores, records)
    ensures
      var all := Returned(pages);
      && (forall i, j :: 0 <= i < j < |all| ==> IsNewer(all[i], all[j]))
      && (forall o :: o in all ==> exists r :: r in records && r.signed == o)
      && (forall r :: r in records ==>
            (r.signed in all <==>
             IsShown(r, tag) && |NewerSet(records, (x: StoredPublishRecord) => IsShown(x, tag), r)| < 10_000))
  {
    var ordered, all := Ordered(records, tag), Returned(pages);
    FixedStoreWalk(records, stores, limits, tag, pages);
    OrderedProperties(records, tag);
    PagePrefix(Page(all, None, false), ordered, |all|);
    assert all == Objects(Truncate(ordered, 10_000));
    forall r | r in records
      ensures r.signed in all <==>
              IsShown(r, tag) && |NewerSet(records, (x: StoredPublishRecord) => IsShown(x, tag), r)| < 10_000
    {
      AmongFirst(records, tag, 10_000, r);
    }
  }

  lemma AmongFirst(records: seq<StoredPublishRecord>, tag: Option<string>, n: nat, r: StoredPublishRecord)
    requires UniqueIds(records) && r in records
    ensures r.signed in Objects(Truncate(Ordered(records, tag), n)) <==>
            IsShown(r, tag) && |NewerSet(records, (x: StoredPublishRecord) => IsShown(x, tag), r)| < n
  {
    var listed := (x: StoredPublishRecord) => Listed(x, tag);
    CutIff(records, listed, n, r);
    NewerIsSet(records, listed, r);
    assert NewerSet(records, listed, r) == NewerSet(records, (x: StoredPublishRecord) => IsShown(x, tag), r);
  }

  // ---------- discover ----------

  /** How many of the tags asked for the record carries. */
  function MatchCount(o: PublishObject, tags: seq<string>): nat {
    |set k | 0 <= k < |tags| && tags[k] in o.tags|
  }

  lemma {:induction false} OverlapFrom(o: PublishObject, tags: seq<string>, i: nat)
    requires i <= |tags|
    ensures Overlap(o, tags[i..]) == |set k | i <= k < |tags| && tags[k] in o.tags|
    decreases |tags| - i
  {
    var here := set k | i <= k < |tags| && tags[k] in o.tags;
    if i == |tags| {
      assert here == {};
    } else {
      var rest := set k | i + 1 <= k < |tags| && tags[k] in o.tags;
      OverlapFrom(o, tags, i + 1);
      assert tags[i..][1..] == tags[i + 1..];
      assert here == if tags[i] in o.tags then rest + {i} else rest;
    }
  }

  lemma OverlapIsCount(o: PublishObject, tags: seq<string>)
    ensures Overlap(o, tags) == MatchCount(o, tags)
  {
    OverlapFrom(o, tags, 0);
    assert tags[0..] == tags;
  }

  /** Ranked before: by tags matched, then score, then time of creation, then the smaller id. */
  predicate RanksAbove(a: PublishObject, b: PublishObject, query: Query) {
    var x, y := MatchCount(a, query.tags), MatchCount(b, query.tags);
    if x != y then x > y
    else if query.score(a.id) != query.score(b.id) then query.score(a.id) > query.score(b.id)
    else if a.createdAt != b.createdAt then a.createdAt > b.createdAt
    else TextLess(a.id, b.id)
  }

  lemma RanksAboveIff(a: PublishObject, b: PublishObject, query: Query)
    ensures RanksBefore(a, b, query.tags, query.score) <==> RanksAbove(a, b, query)
  {
    OverlapIsCount(a, query.tags);
    OverlapIsCount(b, query.tags);
  }

  /** Shown, and with one of the tags when any is asked for. */
  predicate Matches(r: StoredPublishRecord, tags: seq<string>) {
    IsShown(r, None) && (tags == [] || exists k :: 0 <= k < |tags| && tags[k] in r.signed.tags)
  }

  /** The file store considers the newest matching records: 200 for each tag, and 200 without tags. */
  ghost predicate FileConsiders(records: seq<StoredPublishRecord>, tags: seq<string>, r: StoredPublishRecord) {
    && r in records && Matches(r, tags)
    && |NewerSet(records, (x: StoredPublishRecord) => Matches(x, tags), r)| < 200 * (if tags == [] then 1 else |tags|)
  }

  ghost predicate AmongNewest200(records: seq<StoredPublishRecord>, tag: Option<string>, r: StoredPublishRecord) {
    && r in records && IsShown(r, tag)
    && |NewerSet(records, (x: StoredPublishRecord) => IsShown(x, tag), r)| < 200
  }

  /** The Firestore store considers the newest 200 shown records of each tag, and of all without tags. */
  ghost predicate FirestoreConsiders(records: seq<StoredPublishRecord>, tags: seq<string>, r: StoredPublishRecord) {
    if tags == [] then AmongNewest200(records, None, r)
    else exists k :: 0 <= k < |tags| && AmongNewest200(records, Some(tags[k]), r)
  }

  lemma EligibleIff(r: StoredPublishRecord, tags: seq<string>)
    ensures Eligible(r, tags) <==> Matches(r, tags)
  {
    OverlapIff(r.signed, tags);
  }

  lemma FileTakesIff(records: seq<StoredPublishRecord>, tags: seq<string>, r: StoredPublishRecord)
    requires UniqueIds(records) && r in records
    ensures FileTakes(records, tags, r) <==> FileConsiders(records, tags, r)
  {
    var eligible := (x: StoredPublishRecord) => Eligible(x, tags);
    EligibleIff(r, tags);
    NewerIsSet(records, eligible, r);
    forall x
      ensures x in NewerSet(records, eligible, r)
              <==> x in NewerSet(records, (x: StoredPublishRecord) => Matches(x, tags), r)
    {
      EligibleIff(x, tags);
    }
    assert NewerSet(records, eligible, r) == NewerSet(records, (x: StoredPublishRecord) => Matches(x, tags), r);
  }

  lemma SearchTakesIff(records: seq<StoredPublishRecord>, tag: Option<string>, r: StoredPublishRecord)
    requires UniqueIds(records) && r in records
    ensures SearchTakes(records, tag, r) <==> AmongNewest200(records, tag, r)
  {
    var listed := (x: StoredPublishRecord) => Listed(x, tag);
    NewerIsSet(records, listed, r);
    assert NewerSet(records, listed, r) == NewerSet(records, (x: StoredPublishRecord) => IsShown(x, tag), r);
  }

  lemma FirestoreTakesIff(records: seq<StoredPublishRecord>, tags: seq<string>, r: StoredPublishRecord)
    requires UniqueIds(records) && r in records
    ensures FirestoreTakes(records, tags, r) <==> FirestoreConsiders(records, tags, r)
  {
    SearchTakesIff(records, None, r);
    forall k | 0 <= k < |tags|
      ensures SearchTakes(records, Some(tags[k]), r) <==> AmongNewest200(records, Some(tags[k]), r)
    {
      SearchTakesIff(records, Some(tags[k]), r);
    }
  }

  /** Which of the records considered are ranked above this one. */
  ghost function Above(records: seq<StoredPublishRecord>, considered: StoredPublishRecord -> bool, query: Query,
                       o: PublishObject): set<PublishObject>
  {
    set c | c in records && considered(c) && RanksAbove(c.signed, o, query) :: c.signed
  }

  /**
    An answer to a discover request: ranked, of records that are considered, and of those just the ones
    that fewer than the limit rank above.
  */
  ghost predicate RankedByFields(answer: seq<PublishObject>, records: seq<StoredPublishRecord>,
                                 considered: StoredPublishRecord -> bool, query: Query)
  {
    && (forall i, j :: 0 <= i < j < |answer| ==> RanksAbove(answer[i], answer[j], query))
    && (forall o :: o in answer ==> exists r :: r in records && considered(r) && r.signed == o)
    && (forall r :: r in records && considered(r) ==>
          (r.signed in answer <==> |Above(records, considered, query, r.signed)| < query.limit))
  }

  lemma RankMeaning(candidates: seq<PublishObject>, records: seq<StoredPublishRecord>,
                    considered: StoredPublishRecord -> bool, query: Query)
    requires UniqueObjects(candidates) && forall c :: c in candidates ==> MatchesTags(c, query.tags)
    requires forall o :: o in candidates <==> exists r :: r in records && considered(r) && r.signed == o
    ensures RankedByFields(Rank(candidates, query), records, considered, query)
  {
    var answer := Rank(candidates, query);
    RankTakesBest(candidates, query);
    forall i, j | 0 <= i < j < |answer|
      ensures RanksAbove(answer[i], answer[j], query)
    {
      RanksAboveIff(answer[i], answer[j], query);
    }
    forall r | r in records && considered(r)
      ensures r.signed in answer <==> |Above(records, considered, query, r.signed)| < query.limit
    {
      RankTakesIff(candidates, query, r.signed);
      AboveSize(candidates, records, considered, query, r.signed);
    }
  }

  lemma AboveSize(candidates: seq<PublishObject>, records: seq<StoredPublishRecord>,
                  considered: StoredPublishRecord -> bool, query: Query, o: PublishObject)
    requires UniqueObjects(candidates)
    requires forall o :: o in candidates <==> exists r :: r in records && considered(r) && r.signed == o
    ensures |Filter(candidates, (c: PublishObject) => RanksBefore(c, o, query.tags, query.score))|
            == |Above(records, considered, query, o)|
  {
    var earlier := (c: PublishObject) => RanksBefore(c, o, query.tags, query.score);
    PickedSize(candidates, earlier);
    forall c
      ensures c in Picked(candidates, earlier) <==> c in Above(records, considered, query, o)
    {
      RanksAboveIff(c, o, query);
    }
    assert Picked(candidates, earlier) == Above(records, considered, query, o);
  }

  /** The file store's answer. */
  lemma FileDiscoverByFields(records: seq<StoredPublishRecord>, query: Query)
    requires UniqueIds(records)
    ensures RankedByFields(FileDiscover(records, query), records,
                           (r: StoredPublishRecord) => FileTakes(records, query.tags, r), query)
    ensures forall r :: r in records ==> (FileTakes(records, query.tags, r) <==> FileConsiders(records, query.tags, r))
  {
    var candidates := FileCandidates(records, query.tags);
    CandidatesFrom(records, query.tags);
    CandidatesMatch(records, query.tags);
    FileCandidatesUnique(records, query.tags);
    forall r | r in records
      ensures r.signed in candidates <==> FileTakes(records, query.tags, r)
      ensures FileTakes(records, query.tags, r) <==> FileConsiders(records, query.tags, r)
    {
      FileCandidatesIff(records, query.tags, r);
      FileTakesIff(records, query.tags, r);
    }
    RankMeaning(candidates, records, (r: StoredPublishRecord) => FileTakes(records, query.tags, r), query);
  }

  /** The Firestore store's answer. */
  lemma FirestoreDiscoverByFields(documents: seq<StoredPublishRecord>, query: Query)
    requires UniqueIds(documents)
    ensures RankedByFields(FirestoreDiscover(documents, query), documents,
                           (r: StoredPublishRecord) => FirestoreTakes(documents, query.tags, r), query)
    ensures forall r :: r in documents ==>
              (FirestoreTakes(documents, query.tags, r) <==> FirestoreConsiders(documents, query.tags, r))
  {
    var candidates := FirestoreCandidates(documents, query.tags);
    CandidatesFrom(documents, query.tags);
    CandidatesMatch(documents, query.tags);
    FirestoreCandidatesUnique(documents, query.tags);
    forall r | r in documents
      ensures r.signed in candidates <==> FirestoreTakes(documents, query.tags, r)
      ensures FirestoreTakes(documents, query.tags, r) <==> FirestoreConsiders(documents, query.tags, r)
    {
      FirestoreCandidatesIff(documents, query.tags, r);
      FirestoreTakesIff(documents, query.tags, r);
    }
    RankMeaning(candidates, documents, (r: StoredPublishRecord) => FirestoreTakes(documents, query.tags, r), query);
  }
}
