/**
  Cursor pagination of publish search: single pages of the file and the Firestore store, and whole
  walks that follow `next_cursor`, over a fixed store and over one that changes between pages.
*/
module Pagination {
  import opened Wrappers
  import opened Keys
  import opened Sorting
  import opened PublishRecords

  const WINDOW_LIMIT: nat := 10_000

  datatype Cursor = Cursor(createdAt: int, id: string, seen: nat)

  datatype Page = Page(records: seq<PublishObject>, nextCursor: Option<Cursor>, hasMore: bool)

  predicate MatchesTag(record: StoredPublishRecord, tag: Option<string>) {
    tag.None? || tag.value in record.signed.tags
  }

  predicate Listed(record: StoredPublishRecord, tag: Option<string>) {
    Visible(record) && MatchesTag(record, tag)
  }

  predicate NewestFirst(a: StoredPublishRecord, b: StoredPublishRecord) {
    KeyLess(RecordKey(b), RecordKey(a))
  }

  predicate OlderThan(record: StoredPublishRecord, cursor: Cursor) {
    KeyLess(RecordKey(record), Key(cursor.createdAt, cursor.id))
  }

  function Min(a: nat, b: nat): nat {
    if a < b then a else b
  }

  function Objects(records: seq<StoredPublishRecord>): (r: seq<PublishObject>)
    ensures |r| == |records|
    ensures forall i :: 0 <= i < |records| ==> r[i] == records[i].signed
  {
    seq(|records|, i requires 0 <= i < |records| => records[i].signed)
  }

  function SeenBefore(cursor: Option<Cursor>): nat {
    if cursor.Some? then cursor.value.seen else 0
  }

  // ---------- one page ----------

  function PageFromOrderedTail(records: seq<StoredPublishRecord>, limit: nat, seen: nat): Page {
    var seenBefore := Min(seen, WINDOW_LIMIT);
    var pageLimit := Min(limit, WINDOW_LIMIT - seenBefore);
    var taken := records[..Min(pageLimit + 1, |records|)];
    var hasExtra := |taken| > pageLimit;
    var candidates := if hasExtra then taken[..pageLimit] else taken;
    var newSeen := seenBefore + |candidates|;
    var hasMore := hasExtra && newSeen < WINDOW_LIMIT;
    var nextCursor :=
      if hasMore && candidates != [] then
        var last := candidates[|candidates| - 1].signed;
        Some(Cursor(last.createdAt, last.id, newSeen))
      else None;
    Page(Objects(candidates), nextCursor, hasMore)
  }

  /** The first record older than the cursor; the length of the list when there is none. */
  function FirstOlder(ordered: seq<StoredPublishRecord>, cursor: Cursor): (i: nat)
    ensures i <= |ordered|
  {
    if ordered == [] || OlderThan(ordered[0], cursor) then 0 else 1 + FirstOlder(ordered[1..], cursor)
  }

  function PaginateOrdered(ordered: seq<StoredPublishRecord>, limit: nat, cursor: Option<Cursor>): Page {
    var start := if cursor.Some? then FirstOlder(ordered, cursor.value) else 0;
    PageFromOrderedTail(ordered[start..], limit, SeenBefore(cursor))
  }

  /** The records search may return, newest first. */
  function Ordered(records: seq<StoredPublishRecord>, tag: Option<string>): seq<StoredPublishRecord> {
    Sort(Filter(records, (r: StoredPublishRecord) => Listed(r, tag)), NewestFirst)
  }

  function FileSearch(records: seq<StoredPublishRecord>, tag: Option<string>, limit: nat,
                      cursor: Option<Cursor>): Page
  {
    PaginateOrdered(Ordered(records, tag), limit, cursor)
  }

  /** The part of the ordered list that a cursor leaves. */
  function Tail(records: seq<StoredPublishRecord>, tag: Option<string>,
                cursor: Option<Cursor>): seq<StoredPublishRecord>
  {
    match cursor
    case None => Ordered(records, tag)
    case Some(c) => Filter(Ordered(records, tag), (r: StoredPublishRecord) => OlderThan(r, c))
  }

  /**
    What the structured query of the Firestore store asks for: the first `count` documents, in
    descending (created_at, id) order and strictly after the cursor, that are neither deleted nor
    hidden and carry the tag.
  */
  function RunQuery(documents: seq<StoredPublishRecord>, tag: Option<string>, count: nat,
                    cursor: Option<Cursor>): seq<StoredPublishRecord>
  {
    var matches := Tail(documents, tag, cursor);
    matches[..Min(count, |matches|)]
  }

  function FirestoreSearch(documents: seq<StoredPublishRecord>, tag: Option<string>, limit: nat,
                           cursor: Option<Cursor>): Page
  {
    var seenBefore := Min(SeenBefore(cursor), WINDOW_LIMIT);
    var pageLimit := Min(limit, WINDOW_LIMIT - seenBefore);
    if pageLimit == 0 then Page([], None, false)
    else PageFromOrderedTail(RunQuery(documents, tag, pageLimit + 1, cursor), pageLimit, seenBefore)
  }

  ghost predicate UniqueIds(records: seq<StoredPublishRecord>) {
    forall i, j :: 0 <= i < j < |records| ==> records[i].signed.id != records[j].signed.id
  }

  lemma NewestFirstOrder()
    ensures StrictWeakOrder(NewestFirst)
  {
    KeyOrder();
  }

  /** Records picked by any test, in order: strictly newest first, and exactly those that pass. */
  lemma NewestFirstOf(records: seq<StoredPublishRecord>, keep: StoredPublishRecord -> bool)
    requires UniqueIds(records)
    ensures
      var ordered := Sort(Filter(records, keep), NewestFirst);
      && Strict(ordered, NewestFirst)
      && (forall r :: r in ordered <==> r in records && keep(r))
      && UniqueIds(ordered)
      && |ordered| == |Filter(records, keep)|
  {
    NewestFirstOrder();
    KeyOrder();
    assert Separated(records, NewestFirst);
    FilterSeparated(records, keep, NewestFirst);
    SortStrict(Filter(records, keep), NewestFirst);
    SortElements(Filter(records, keep), NewestFirst);
    SortMultiset(Filter(records, keep), NewestFirst);
    FilterElements(records, keep);
    var ordered := Sort(Filter(records, keep), NewestFirst);
    forall i, j | 0 <= i < j < |ordered|
      ensures ordered[i].signed.id != ordered[j].signed.id
    {
      assert ordered[i] in records && ordered[j] in records;
      assert NewestFirst(ordered[i], ordered[j]);
      var a :| 0 <= a < |records| && records[a] == ordered[i];
      var b :| 0 <= b < |records| && records[b] == ordered[j];
      assert a != b;
    }
  }

  /** How many of the records picked are newer than this one. */
  function Newer(records: seq<StoredPublishRecord>, keep: StoredPublishRecord -> bool, r: StoredPublishRecord): nat {
    |Filter(records, (x: StoredPublishRecord) => keep(x) && NewestFirst(x, r))|
  }

  /** A record is among the first n of those picked iff fewer than n of them are newer. */
  lemma AmongNewestIff(records: seq<StoredPublishRecord>, keep: StoredPublishRecord -> bool, n: nat,
                       r: StoredPublishRecord)
    requires UniqueIds(records)
    ensures r in Truncate(Sort(Filter(records, keep), NewestFirst), n)
            <==> r in records && keep(r) && Newer(records, keep, r) < n
  {
    NewestFirstOrder();
    KeyOrder();
    assert Separated(records, NewestFirst);
    FilterSeparated(records, keep, NewestFirst);
    FilterElements(records, keep);
    var newer := (x: StoredPublishRecord) => NewestFirst(x, r);
    AmongFirstIff(Filter(records, keep), n, NewestFirst, r, newer);
    FilterTwice(records, keep, newer, (x: StoredPublishRecord) => keep(x) && NewestFirst(x, r));
  }

  function NewerListed(records: seq<StoredPublishRecord>, tag: Option<string>, r: StoredPublishRecord): nat {
    Newer(records, (x: StoredPublishRecord) => Listed(x, tag), r)
  }

  /** The ordered list: strictly newest first, and exactly the records that are shown and match. */
  lemma OrderedProperties(records: seq<StoredPublishRecord>, tag: Option<string>)
    requires UniqueIds(records)
    ensures Strict(Ordered(records, tag), NewestFirst)
    ensures forall r :: r in Ordered(records, tag) <==> r in records && Listed(r, tag)
    ensures UniqueIds(Ordered(records, tag))
  {
    NewestFirstOf(records, (r: StoredPublishRecord) => Listed(r, tag));
  }

  /** Skipping to the first older record of an ordered list leaves exactly the older ones. */
  lemma {:induction false} FirstOlderSplits(ordered: seq<StoredPublishRecord>, cursor: Cursor)
    requires Strict(ordered, NewestFirst)
    ensures ordered[FirstOlder(ordered, cursor)..] == Filter(ordered, (r: StoredPublishRecord) => OlderThan(r, cursor))
  {
    var older := (r: StoredPublishRecord) => OlderThan(r, cursor);
    if ordered != [] {
      if OlderThan(ordered[0], cursor) {
        KeyOrder();
        forall r | r in ordered
          ensures older(r)
        {
          var i :| 0 <= i < |ordered| && ordered[i] == r;
          assert i > 0 ==> NewestFirst(ordered[0], r);
        }
        FilterAll(ordered, older);
      } else {
        FirstOlderSplits(ordered[1..], cursor);
        assert ordered[1..][FirstOlder(ordered[1..], cursor)..] == ordered[FirstOlder(ordered, cursor)..];
      }
    }
  }

  lemma FileSearchTail(records: seq<StoredPublishRecord>, tag: Option<string>, limit: nat, cursor: Option<Cursor>)
    requires UniqueIds(records)
    ensures FileSearch(records, tag, limit, cursor)
            == PageFromOrderedTail(Tail(records, tag, cursor), limit, SeenBefore(cursor))
  {
    OrderedProperties(records, tag);
    if cursor.Some? {
      FirstOlderSplits(Ordered(records, tag), cursor.value);
    } else {
      assert Ordered(records, tag)[0..] == Ordered(records, tag);
    }
  }

  /** The ordered list does not depend on the order the records are stored in. */
  lemma OrderedIgnoresStorageOrder(records: seq<StoredPublishRecord>, documents: seq<StoredPublishRecord>,
                                   tag: Option<string>)
    requires UniqueIds(records) && UniqueIds(documents)
    requires forall r :: r in records <==> r in documents
    ensures Ordered(records, tag) == Ordered(documents, tag)
  {
    OrderedProperties(records, tag);
    OrderedProperties(documents, tag);
    NewestFirstOrder();
    StrictUnique(Ordered(records, tag), Ordered(documents, tag), NewestFirst);
  }

  /** The page the Firestore store builds from what its query fetches of a tail. */
  function QueryPage(tail: seq<StoredPublishRecord>, limit: nat, seen: nat): Page {
    var seenBefore := Min(seen, WINDOW_LIMIT);
    var pageLimit := Min(limit, WINDOW_LIMIT - seenBefore);
    if pageLimit == 0 then Page([], None, false)
    else PageFromOrderedTail(tail[..Min(pageLimit + 1, |tail|)], pageLimit, seenBefore)
  }

  /** One record more than the page is enough to build it from. */
  lemma QueryIsEnough(tail: seq<StoredPublishRecord>, limit: nat, seen: nat)
    ensures PageFromOrderedTail(tail, limit, seen) == QueryPage(tail, limit, seen)
            <==> limit >= 1 || seen >= WINDOW_LIMIT || tail == []
  {
    var pageLimit := Min(limit, WINDOW_LIMIT - Min(seen, WINDOW_LIMIT));
    var query := tail[..Min(pageLimit + 1, |tail|)];
    assert query[..Min(pageLimit + 1, |query|)] == query;
    if pageLimit == 0 {
      assert PageFromOrderedTail(tail, limit, seen).records == [];
    }
  }

  lemma TailIgnoresStorageOrder(records: seq<StoredPublishRecord>, documents: seq<StoredPublishRecord>,
                                tag: Option<string>, cursor: Option<Cursor>)
    requires UniqueIds(records) && UniqueIds(documents)
    requires forall r :: r in records <==> r in documents
    ensures Tail(documents, tag, cursor) == Tail(records, tag, cursor)
  {
    OrderedIgnoresStorageOrder(records, documents, tag);
  }

  lemma FirestoreSearchTail(documents: seq<StoredPublishRecord>, tag: Option<string>, limit: nat,
                            cursor: Option<Cursor>)
    ensures FirestoreSearch(documents, tag, limit, cursor)
            == QueryPage(Tail(documents, tag, cursor), limit, SeenBefore(cursor))
  {
  }

  /**
    The file store and the Firestore store return the same page for every store, tag and cursor,
    iff the limit is at least 1, or the cursor's window is used up, or nothing is left to return.
    (With limit 0 the file store reports more records but gives no cursor to reach them.)
  */
  lemma SamePageIff(records: seq<StoredPublishRecord>, documents: seq<StoredPublishRecord>, tag: Option<string>,
                    limit: nat, cursor: Option<Cursor>)
    requires UniqueIds(records) && UniqueIds(documents)
    requires forall r :: r in records <==> r in documents
    ensures FileSearch(records, tag, limit, cursor) == FirestoreSearch(documents, tag, limit, cursor)
            <==> limit >= 1 || SeenBefore(cursor) >= WINDOW_LIMIT || Tail(records, tag, cursor) == []
  {
    FileSearchTail(records, tag, limit, cursor);
    FirestoreSearchTail(documents, tag, limit, cursor);
    TailIgnoresStorageOrder(records, documents, tag, cursor);
    QueryIsEnough(Tail(records, tag, cursor), limit, SeenBefore(cursor));
  }

  // ---------- walks ----------

  /** How many records a page of a walk returns when `left` are left. */
  function PageSize(limit: nat, seen: nat, left: nat): nat {
    Min(Min(limit, WINDOW_LIMIT - Min(seen, WINDOW_LIMIT)), left)
  }

  function CursorAt(record: StoredPublishRecord, seen: nat): Cursor {
    Cursor(record.signed.createdAt, record.signed.id, seen)
  }

  /** `page` is the page of limit `limit` that a walk with `seen` records behind it gets from `tail`. */
  ghost predicate IsPageOf(page: Page, tail: seq<StoredPublishRecord>, limit: nat, seen: nat) {
    var size := PageSize(limit, seen, |tail|);
    && page.records == Objects(tail[..size])
    && page.hasMore == (size < |tail| && seen + size < WINDOW_LIMIT)
    && (page.hasMore ==> size > 0 && page.nextCursor == Some(CursorAt(tail[size - 1], seen + size)))
    && (!page.hasMore ==> page.nextCursor == None)
  }

  lemma TailShape(tail: seq<StoredPublishRecord>, limit: nat, seen: nat)
    requires limit >= 1 && seen < WINDOW_LIMIT
    ensures IsPageOf(PageFromOrderedTail(tail, limit, seen), tail, limit, seen)
  {
    var pageLimit := Min(limit, WINDOW_LIMIT - seen);
    var taken := tail[..Min(pageLimit + 1, |tail|)];
    if |taken| > pageLimit {
      assert taken[..pageLimit] == tail[..pageLimit];
    } else {
      assert taken == tail[..PageSize(limit, seen, |tail|)];
    }
  }

  /** What a page is, in terms of the records its cursor leaves. */
  lemma PageShape(records: seq<StoredPublishRecord>, tag: Option<string>, limit: nat, cursor: Option<Cursor>)
    requires UniqueIds(records) && limit >= 1 && SeenBefore(cursor) < WINDOW_LIMIT
    ensures IsPageOf(FileSearch(records, tag, limit, cursor), Tail(records, tag, cursor), limit, SeenBefore(cursor))
  {
    FileSearchTail(records, tag, limit, cursor);
    TailShape(Tail(records, tag, cursor), limit, SeenBefore(cursor));
  }

  function CursorBefore(pages: seq<Page>, i: nat): Option<Cursor>
    requires i <= |pages|
  {
    if i == 0 then None else pages[i - 1].nextCursor
  }

  /**
    A client follows cursors from the start: page i is fetched from stores[i] with limits[i] and the
    cursor of the page before, and another page is fetched only when the one before promised more.
  */
  ghost predicate IsWalk(stores: seq<seq<StoredPublishRecord>>, limits: seq<nat>, tag: Option<string>,
                         pages: seq<Page>)
  {
    && |stores| == |limits| == |pages|
    && (pages != [] ==>
          var n := |pages| - 1;
          && IsWalk(stores[..n], limits[..n], tag, pages[..n])
          && (n > 0 ==> pages[n - 1].hasMore)
          && UniqueIds(stores[n]) && limits[n] >= 1
          && pages[n] == FileSearch(stores[n], tag, limits[n], CursorBefore(pages, n)))
  }

  /** All records a walk returned, in order. */
  function Returned(pages: seq<Page>): seq<PublishObject> {
    if pages == [] then [] else Returned(pages[..|pages| - 1]) + pages[|pages| - 1].records
  }

  ghost predicate Finished(pages: seq<Page>) {
    pages != [] && !pages[|pages| - 1].hasMore
  }

  /** The cursor of a walk counts the records returned so far, and a page that promises more has one. */
  lemma {:induction false} CursorCounts(stores: seq<seq<StoredPublishRecord>>, limits: seq<nat>, tag: Option<string>,
                                        pages: seq<Page>)
    requires IsWalk(stores, limits, tag, pages) && pages != []
    ensures
      var last := pages[|pages| - 1];
      && |Returned(pages)| <= WINDOW_LIMIT
      && SeenBefore(CursorBefore(pages, |pages| - 1)) == |Returned(pages[..|pages| - 1])| < WINDOW_LIMIT
      && last.nextCursor.Some? == last.hasMore
      && (last.hasMore ==> last.nextCursor.value.seen == |Returned(pages)| < WINDOW_LIMIT)
  {
    var n := |pages| - 1;
    if n > 0 {
      CursorCounts(stores[..n], limits[..n], tag, pages[..n]);
    }
    PageShape(stores[n], tag, limits[n], CursorBefore(pages, n));
  }

  // ---------- a fixed store ----------

  /** What is left after the first n records of the ordered list, given the cursor at the n-th. */
  lemma TailAfter(records: seq<StoredPublishRecord>, tag: Option<string>, n: nat, seen: nat)
    requires UniqueIds(records) && 0 < n <= |Ordered(records, tag)|
    ensures Tail(records, tag, Some(CursorAt(Ordered(records, tag)[n - 1], seen))) == Ordered(records, tag)[n..]
  {
    OrderedProperties(records, tag);
    KeyOrder();
    var ordered := Ordered(records, tag);
    FilterIsSuffix(ordered, ordered[n - 1], n, CursorAt(ordered[n - 1], seen));
  }

  lemma {:induction false} FilterIsSuffix(ordered: seq<StoredPublishRecord>, at: StoredPublishRecord, n: nat,
                                          cursor: Cursor)
    requires Strict(ordered, NewestFirst) && n <= |ordered|
    requires Key(cursor.createdAt, cursor.id) == RecordKey(at)
    requires forall i :: 0 <= i < n ==> !NewestFirst(at, ordered[i])
    requires forall i :: n <= i < |ordered| ==> NewestFirst(at, ordered[i])
    ensures Filter(ordered, (r: StoredPublishRecord) => OlderThan(r, cursor)) == ordered[n..]
  {
    var older := (r: StoredPublishRecord) => OlderThan(r, cursor);
    if n == 0 {
      FilterAll(ordered, older);
    } else {
      assert !older(ordered[0]);
      FilterIsSuffix(ordered[1..], at, n - 1, cursor);
      assert ordered[1..][n - 1..] == ordered[n..];
    }
  }

  /**
    What a walk over a fixed ordered list has returned after `count` pages of which `last` is the
    last: a prefix of the list, so each record once; with at most one page more than records, so it
    cannot go on forever; when it has ended, the first min(N, 10000) of the N records; and when it
    has not, a cursor to go on from.
  */
  ghost predicate WalksPrefix(returned: seq<PublishObject>, count: nat, last: Page, ordered: seq<StoredPublishRecord>) {
    var n := |returned|;
    && n <= Min(|ordered|, WINDOW_LIMIT)
    && returned == Objects(ordered[..n])
    && count <= n + 1
    && (!last.hasMore ==> n == Min(|ordered|, WINDOW_LIMIT))
    && (last.hasMore ==> count <= n && 0 < n && last.nextCursor == Some(CursorAt(ordered[n - 1], n)))
  }

  /** The store is the same at every fetch. */
  ghost predicate AlwaysStore(stores: seq<seq<StoredPublishRecord>>, records: seq<StoredPublishRecord>) {
    stores != [] ==> stores[|stores| - 1] == records && AlwaysStore(stores[..|stores| - 1], records)
  }

  /** One more page, fetched with the cursor of the page before. */
  lemma NextPage(records: seq<StoredPublishRecord>, tag: Option<string>, before: seq<PublishObject>, count: nat,
                 last: Page, page: Page, limit: nat)
    requires UniqueIds(records) && WalksPrefix(before, count, last, Ordered(records, tag))
    requires last.hasMore && |before| < WINDOW_LIMIT && limit >= 1
    requires IsPageOf(page, Tail(records, tag, last.nextCursor), limit, |before|)
    ensures WalksPrefix(before + page.records, count + 1, page, Ordered(records, tag))
  {
    TailAfter(records, tag, |before|, |before|);
    PageExtendsWalk(before, count, page, Ordered(records, tag), Tail(records, tag, last.nextCursor), limit);
  }

  /** A page taken behind a prefix of the list makes a longer prefix. */
  lemma PageExtendsWalk(before: seq<PublishObject>, count: nat, page: Page, ordered: seq<StoredPublishRecord>,
                        tail: seq<StoredPublishRecord>, limit: nat)
    requires |before| <= |ordered| && tail == ordered[|before|..] && before == Objects(ordered[..|before|])
    requires count <= |before| < WINDOW_LIMIT && limit >= 1
    requires IsPageOf(page, tail, limit, |before|)
    ensures WalksPrefix(before + page.records, count + 1, page, ordered)
  {
    var n := |before|;
    var size := PageSize(limit, n, |tail|);
    assert ordered[..n] + tail[..size] == ordered[..n + size];
    assert before + page.records == Objects(ordered[..n + size]);
  }

  /** The last page of a walk over a fixed store, in terms of what the pages before it left. */
  lemma LastPage(records: seq<StoredPublishRecord>, stores: seq<seq<StoredPublishRecord>>, limits: seq<nat>,
                 tag: Option<string>, pages: seq<Page>)
    requires IsWalk(stores, limits, tag, pages) && pages != []
    requires stores[|stores| - 1] == records
    ensures
      var n := |pages| - 1;
      && UniqueIds(records) && limits[n] >= 1
      && |Returned(pages[..n])| < WINDOW_LIMIT
      && (n > 0 ==> pages[n - 1].hasMore)
      && IsPageOf(pages[n], Tail(records, tag, CursorBefore(pages, n)), limits[n], |Returned(pages[..n])|)
  {
    var n := |pages| - 1;
    CursorCounts(stores, limits, tag, pages);
    PageShape(records, tag, limits[n], CursorBefore(pages, n));
  }

  lemma FirstPage(records: seq<StoredPublishRecord>, tag: Option<string>, page: Page, limit: nat)
    requires limit >= 1 && IsPageOf(page, Tail(records, tag, None), limit, 0)
    ensures WalksPrefix(page.records, 1, page, Ordered(records, tag))
  {
    var ordered := Ordered(records, tag);
    assert ordered[0..] == ordered;
    PageExtendsWalk([], 0, page, ordered, ordered, limit);
    assert [] + page.records == page.records;
  }

  lemma WalkOn(records: seq<StoredPublishRecord>, stores: seq<seq<StoredPublishRecord>>, limits: seq<nat>,
               tag: Option<string>, pages: seq<Page>)
    requires IsWalk(stores, limits, tag, pages) && |pages| > 1 && stores[|stores| - 1] == records
    requires WalksPrefix(Returned(pages[..|pages| - 1]), |pages| - 1, pages[|pages| - 2], Ordered(records, tag))
    ensures WalksPrefix(Returned(pages), |pages|, pages[|pages| - 1], Ordered(records, tag))
  {
    var n := |pages| - 1;
    LastPage(records, stores, limits, tag, pages);
    NextPage(records, tag, Returned(pages[..n]), n, pages[n - 1], pages[n], limits[n]);
  }

  /**
    Following `next_cursor` over a fixed store, with any limits of at least 1: see WalksPrefix. So the
    pages of a finished walk are, put together, the first min(N, 10000) of the N listed records.
  */
  lemma {:induction false} FixedStoreWalk(records: seq<StoredPublishRecord>, stores: seq<seq<StoredPublishRecord>>,
                                          limits: seq<nat>, tag: Option<string>, pages: seq<Page>)
    requires IsWalk(stores, limits, tag, pages) && pages != []
    requires AlwaysStore(stores, records)
    ensures WalksPrefix(Returned(pages), |pages|, pages[|pages| - 1], Ordered(records, tag))
  {
    var n := |pages| - 1;
    if n == 0 {
      LastPage(records, stores, limits, tag, pages);
      FirstPage(records, tag, pages[0], limits[0]);
      assert Returned(pages) == [] + pages[0].records;
    } else {
      FixedStoreWalk(records, stores[..n], limits[..n], tag, pages[..n]);
      WalkOn(records, stores, limits, tag, pages);
    }
  }

  // ---------- a store that changes between pages ----------

  /** The id is shown, matches and has this key in the store. */
  ghost predicate ShownWithKey(records: seq<StoredPublishRecord>, tag: Option<string>, key: Key) {
    exists r :: r in records && Listed(r, tag) && RecordKey(r) == key
  }

  function Ids(objects: seq<PublishObject>): (r: seq<string>)
    ensures |r| == |objects|
    ensures forall i :: 0 <= i < |objects| ==> r[i] == objects[i].id
  {
    seq(|objects|, i requires 0 <= i < |objects| => objects[i].id)
  }

  /** How often the id occurs in a list of records. */
  function Occurrences(objects: seq<PublishObject>, id: string): nat {
    multiset(Ids(objects))[id]
  }

  lemma OccurrencesConcat(a: seq<PublishObject>, b: seq<PublishObject>, id: string)
    ensures Occurrences(a + b, id) == Occurrences(a, id) + Occurrences(b, id)
  {
    assert Ids(a + b) == Ids(a) + Ids(b);
  }

  /** In a list with unique ids an id occurs once if it occurs at all. */
  lemma {:induction false} OccurrencesInPrefix(records: seq<StoredPublishRecord>, size: nat, id: string)
    requires UniqueIds(records) && size <= |records|
    ensures Occurrences(Objects(records[..size]), id)
            == if exists i :: 0 <= i < size && records[i].signed.id == id then 1 else 0
  {
    if size > 0 {
      OccurrencesInPrefix(records, size - 1, id);
      assert Ids(Objects(records[..size])) == Ids(Objects(records[..size - 1])) + [records[size - 1].signed.id];
    }
  }

  /** The records a cursor leaves: each id at most once, and those listed records that are older. */
  lemma TailProperties(records: seq<StoredPublishRecord>, tag: Option<string>, cursor: Option<Cursor>)
    requires UniqueIds(records)
    ensures Strict(Tail(records, tag, cursor), NewestFirst)
    ensures UniqueIds(Tail(records, tag, cursor))
    ensures forall r :: r in Tail(records, tag, cursor) <==>
                        r in records && Listed(r, tag) && (cursor.None? || OlderThan(r, cursor.value))
  {
    OrderedProperties(records, tag);
    if cursor.Some? {
      var older := (r: StoredPublishRecord) => OlderThan(r, cursor.value);
      FilterElements(Ordered(records, tag), older);
      FilterStrict(Ordered(records, tag), older, NewestFirst);
      FilterStrict(Ordered(records, tag), older,
                   (a: StoredPublishRecord, b: StoredPublishRecord) => a.signed.id != b.signed.id);
    }
  }

  /** The cursor has passed the key: records with it are not returned any more. */
  predicate Passed(cursor: Option<Cursor>, key: Key) {
    cursor.Some? && !KeyLess(key, Key(cursor.value.createdAt, cursor.value.id))
  }

  /** The walk will not come to the key: its cursor is past it, or there is no further page. */
  predicate Done(page: Page, key: Key) {
    !page.hasMore || Passed(page.nextCursor, key)
  }

  /** A page taken from a list in which the record is at position i. */
  lemma PageWithRecord(page: Page, tail: seq<StoredPublishRecord>, limit: nat, seen: nat, i: nat)
    requires Strict(tail, NewestFirst) && UniqueIds(tail) && IsPageOf(page, tail, limit, seen)
    requires i < |tail|
    ensures
      var key := RecordKey(tail[i]);
      var count := Occurrences(page.records, key.id);
      && (!Done(page, key) ==> count == 0)
      && (Done(page, key) ==> count == 1 || (!page.hasMore && seen + |page.records| >= WINDOW_LIMIT))
  {
    var size := PageSize(limit, seen, |tail|);
    KeyOrder();
    OccurrencesInPrefix(tail, size, tail[i].signed.id);
    if i >= size {
      assert size > 0 ==> NewestFirst(tail[size - 1], tail[i]);
      forall j | 0 <= j < size
        ensures tail[j].signed.id != tail[i].signed.id
      {
      }
    } else if page.hasMore {
      assert i < size - 1 ==> NewestFirst(tail[i], tail[size - 1]);
    }
  }

  /** One page, for a record that is shown with the same key at its fetch. */
  lemma PageOfStableRecord(records: seq<StoredPublishRecord>, tag: Option<string>, limit: nat, cursor: Option<Cursor>,
                           key: Key)
    requires UniqueIds(records) && limit >= 1 && SeenBefore(cursor) < WINDOW_LIMIT
    requires ShownWithKey(records, tag, key)
    ensures
      var page := FileSearch(records, tag, limit, cursor);
      var count := Occurrences(page.records, key.id);
      && (Passed(cursor, key) ==> count == 0 && Done(page, key))
      && (!Done(page, key) ==> count == 0)
      && (!Passed(cursor, key) && Done(page, key) ==>
            count == 1 || (!page.hasMore && SeenBefore(cursor) + |page.records| >= WINDOW_LIMIT))
  {
    PageShape(records, tag, limit, cursor);
    TailProperties(records, tag, cursor);
    var r :| r in records && Listed(r, tag) && RecordKey(r) == key;
    StableRecordOnPage(FileSearch(records, tag, limit, cursor), records, Tail(records, tag, cursor), limit, cursor, r);
  }

  /** The same, of any page that has the shape of one. */
  lemma StableRecordOnPage(page: Page, records: seq<StoredPublishRecord>, tail: seq<StoredPublishRecord>, limit: nat,
                           cursor: Option<Cursor>, r: StoredPublishRecord)
    requires UniqueIds(records) && r in records
    requires Strict(tail, NewestFirst) && UniqueIds(tail) && IsPageOf(page, tail, limit, SeenBefore(cursor))
    requires forall x :: x in tail ==> x in records && (cursor.None? || OlderThan(x, cursor.value))
    requires r in tail <==> !Passed(cursor, RecordKey(r))
    ensures
      var key := RecordKey(r);
      var count := Occurrences(page.records, key.id);
      && (Passed(cursor, key) ==> count == 0 && Done(page, key))
      && (!Done(page, key) ==> count == 0)
      && (!Passed(cursor, key) && Done(page, key) ==>
            count == 1 || (!page.hasMore && SeenBefore(cursor) + |page.records| >= WINDOW_LIMIT))
  {
    var size := PageSize(limit, SeenBefore(cursor), |tail|);
    if r in tail {
      var i :| 0 <= i < |tail| && tail[i] == r;
      PageWithRecord(page, tail, limit, SeenBefore(cursor), i);
    } else {
      NotInTail(records, tail, r);
      assert page.hasMore ==> tail[size - 1] in tail;
      PageWithoutRecord(page, tail, limit, cursor, RecordKey(r));
    }
  }

  /** A page taken behind a cursor that has passed the key. */
  lemma PageWithoutRecord(page: Page, tail: seq<StoredPublishRecord>, limit: nat, cursor: Option<Cursor>, key: Key)
    requires UniqueIds(tail) && IsPageOf(page, tail, limit, SeenBefore(cursor)) && Passed(cursor, key)
    requires forall i :: 0 <= i < |tail| ==> tail[i].signed.id != key.id
    requires page.hasMore ==> OlderThan(tail[PageSize(limit, SeenBefore(cursor), |tail|) - 1], cursor.value)
    ensures Occurrences(page.records, key.id) == 0 && Done(page, key)
  {
    KeyOrder();
    OccurrencesInPrefix(tail, PageSize(limit, SeenBefore(cursor), |tail|), key.id);
  }

  lemma NotInTail(records: seq<StoredPublishRecord>, tail: seq<StoredPublishRecord>, r: StoredPublishRecord)
    requires UniqueIds(records) && r in records && r !in tail
    requires forall x :: x in tail ==> x in records
    ensures forall i :: 0 <= i < |tail| ==> tail[i].signed.id != r.signed.id
  {
    forall i | 0 <= i < |tail|
      ensures tail[i].signed.id != r.signed.id
    {
      assert tail[i] in tail;
      var a :| 0 <= a < |records| && records[a] == tail[i];
      var b :| 0 <= b < |records| && records[b] == r;
    }
  }

  /**
    Search while the store changes: a record that is shown, matches and keeps its (created_at, id)
    at every fetch is returned exactly once by a walk that ends with fewer than 10000 records seen,
    whatever else is upserted, deleted, hidden or restored between the pages.
  */
  lemma StableRecordReturnedOnce(stores: seq<seq<StoredPublishRecord>>, limits: seq<nat>, tag: Option<string>,
                                 pages: seq<Page>, key: Key)
    requires IsWalk(stores, limits, tag, pages) && Finished(pages)
    requires |Returned(pages)| < WINDOW_LIMIT
    requires forall i :: 0 <= i < |stores| ==> ShownWithKey(stores[i], tag, key)
    ensures Occurrences(Returned(pages), key.id) == 1
  {
    ShownAtEachFetch(stores, tag, key);
    StableRecordSoFar(stores, limits, tag, pages, key);
  }

  lemma StableRecordOnLastPage(stores: seq<seq<StoredPublishRecord>>, limits: seq<nat>, tag: Option<string>,
                               pages: seq<Page>, key: Key)
    requires IsWalk(stores, limits, tag, pages) && pages != []
    requires |Returned(pages)| < WINDOW_LIMIT && ShownWithKey(stores[|stores| - 1], tag, key)
    ensures
      var n := |pages| - 1;
      Occurrences(Returned(pages), key.id)
      == Occurrences(Returned(pages[..n]), key.id)
         + if Done(pages[n], key) && !Passed(CursorBefore(pages, n), key) then 1 else 0
    ensures Passed(CursorBefore(pages, |pages| - 1), key) ==> Done(pages[|pages| - 1], key)
  {
    var n := |pages| - 1;
    CursorCounts(stores, limits, tag, pages);
    PageOfStableRecord(stores[n], tag, limits[n], CursorBefore(pages, n), key);
    OccurrencesConcat(Returned(pages[..n]), pages[n].records, key.id);
  }

  /** The record is shown with this key at every fetch. */
  ghost predicate AlwaysShown(stores: seq<seq<StoredPublishRecord>>, tag: Option<string>, key: Key) {
    stores != [] ==> ShownWithKey(stores[|stores| - 1], tag, key) && AlwaysShown(stores[..|stores| - 1], tag, key)
  }

  lemma {:induction false} ShownAtEachFetch(stores: seq<seq<StoredPublishRecord>>, tag: Option<string>, key: Key)
    requires forall i :: 0 <= i < |stores| ==> ShownWithKey(stores[i], tag, key)
    ensures AlwaysShown(stores, tag, key)
  {
    if stores != [] {
      ShownAtEachFetch(stores[..|stores| - 1], tag, key);
    }
  }

  lemma {:induction false} StableRecordSoFar(stores: seq<seq<StoredPublishRecord>>, limits: seq<nat>,
                                             tag: Option<string>, pages: seq<Page>, key: Key)
    requires IsWalk(stores, limits, tag, pages) && pages != []
    requires |Returned(pages)| < WINDOW_LIMIT && AlwaysShown(stores, tag, key)
    ensures Occurrences(Returned(pages), key.id) == if Done(pages[|pages| - 1], key) then 1 else 0
  {
    var n := |pages| - 1;
    StableRecordOnLastPage(stores, limits, tag, pages, key);
    if n > 0 {
      StableRecordSoFar(stores[..n], limits[..n], tag, pages[..n], key);
    }
  }
}
