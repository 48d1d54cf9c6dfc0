/**
  The file publish store: a list of records changed in place under a lock, proved against the
  per-document decisions of PublishRecords, so that it is the locked store the Firestore form refines.
*/
module FilePublishStore {
  import opened Wrappers
  import opened Keys
  import opened Sorting
  import opened CommitProtocol
  import opened NamedList
  import opened PublishRecords
  import opened Pagination

  function IdOf(record: StoredPublishRecord): string {
    record.signed.id
  }

  /** The records by id. */
  function ById(records: seq<StoredPublishRecord>): map<string, StoredPublishRecord> {
    ByName(records, IdOf)
  }

  /** The first record with the id that its author has not deleted. */
  function IndexOfLive(records: seq<StoredPublishRecord>, id: string): (i: nat)
    ensures i <= |records|
    ensures i < |records| ==> records[i].signed.id == id && !records[i].deleted
    ensures forall j :: 0 <= j < i ==> records[j].signed.id != id || records[j].deleted
  {
    if records == [] || (records[0].signed.id == id && !records[0].deleted) then 0
    else 1 + IndexOfLive(records[1..], id)
  }

  function VisibleIds(docs: map<string, StoredPublishRecord>): set<string> {
    set id | id in docs && Visible(docs[id])
  }

  function VisiblePeers(docs: map<string, StoredPublishRecord>): set<string> {
    set id | id in docs && Visible(docs[id]) :: docs[id].signed.peerId
  }

  /** What one more record adds to the visible ids and peers. */
  lemma OneMoreRecord(records: seq<StoredPublishRecord>, i: nat)
    requires UniqueNames(records, IdOf) && i < |records|
    ensures
      var docs, docs' := ById(records[..i]), ById(records[..i + 1]);
      if Visible(records[i]) then
        VisiblePeers(docs') == VisiblePeers(docs) + {records[i].signed.peerId}
        && |VisibleIds(docs')| == |VisibleIds(docs)| + 1
      else
        VisiblePeers(docs') == VisiblePeers(docs) && VisibleIds(docs') == VisibleIds(docs)
  {
    var docs, r := ById(records[..i]), records[i];
    assert IndexOf(records[..i], IdOf, r.signed.id) == i;
    ByNameAppend(records[..i], IdOf, r);
    ByNameOfIndex(records[..i], IdOf, r.signed.id);
    assert records[..i + 1] == records[..i] + [r];
    var docs' := docs[r.signed.id := r];
    assert forall id :: id in docs ==> docs'[id] == docs[id];
    if Visible(r) {
      assert VisibleIds(docs') == VisibleIds(docs) + {r.signed.id};
      assert docs'[r.signed.id].signed.peerId in VisiblePeers(docs');
    }
  }

  class FilePublishStore {
    var records: seq<StoredPublishRecord>

    ghost predicate Valid()
      reads this
    {
      UniqueNames(records, IdOf)
    }

    ghost function Contents(): map<string, StoredPublishRecord>
      reads this
    {
      ById(records)
    }

    constructor ()
      ensures Valid() && Contents() == map[]
    {
      records := [];
    }

    method Upsert(signed: PublishObject, peerId: string) returns (status: PublishStatus)
      requires Valid()
      modifies this
      ensures Valid()
      ensures
        var d := Decide(PublishOp.Upsert(signed, peerId), Lookup(old(Contents()), signed.id));
        status == d.answer && Contents() == Applied(old(Contents()), signed.id, d)
    {
      var i := IndexOf(records, IdOf, signed.id);
      ByNameOfIndex(records, IdOf, signed.id);
      if i < |records| {
        var existing := records[i];
        if existing.signed.peerId != peerId {
          return PeerConflict;
        }
        if existing.deleted {
          return AuthorDeleted;
        }
        ByNameUpdate(records, IdOf, i, PreserveAdminState(signed, existing));
        records := records[i := PreserveAdminState(signed, existing)];
      } else {
        ByNameAppend(records, IdOf, NewRecord(signed));
        records := records + [NewRecord(signed)];
      }
      return Stored;
    }

    method MarkAuthorDeleted(id: string, peerId: string, now: int) returns (status: PublishStatus)
      requires Valid()
      modifies this
      ensures Valid()
      ensures
        var d := Decide(AuthorDelete(peerId, now), Lookup(old(Contents()), id));
        status == d.answer && Contents() == Applied(old(Contents()), id, d)
    {
      var i := IndexOfLive(records, id);
      ByNameOfIndex(records, IdOf, id);
      assert i < |records| ==> i == IndexOf(records, IdOf, id);
      if i == |records| {
        return NotFound;
      }
      if records[i].signed.peerId != peerId {
        return WrongPeer;
      }
      ByNameUpdate(records, IdOf, i, MarkDeleted(records[i], now));
      records := records[i := MarkDeleted(records[i], now)];
      return Deleted;
    }

    method AdminHide(id: string, reason: string, admin: Admin, now: int) returns (status: PublishStatus)
      requires Valid()
      modifies this
      ensures Valid()
      ensures
        var d := Decide(Hide(reason, admin, now), Lookup(old(Contents()), id));
        status == d.answer && Contents() == Applied(old(Contents()), id, d)
    {
      var i := IndexOf(records, IdOf, id);
      ByNameOfIndex(records, IdOf, id);
      if i == |records| {
        return NotFound;
      }
      if records[i].deleted {
        return AuthorDeleted;
      }
      ByNameUpdate(records, IdOf, i, MarkHidden(records[i], reason, admin, now));
      records := records[i := MarkHidden(records[i], reason, admin, now)];
      return Updated(records[i].signed);
    }

    method AdminRestore(id: string, reason: string, admin: Admin, now: int) returns (status: PublishStatus)
      requires Valid()
      modifies this
      ensures Valid()
      ensures
        var d := Decide(Restore(reason, admin, now), Lookup(old(Contents()), id));
        status == d.answer && Contents() == Applied(old(Contents()), id, d)
    {
      var i := IndexOf(records, IdOf, id);
      ByNameOfIndex(records, IdOf, id);
      if i == |records| {
        return NotFound;
      }
      if records[i].deleted {
        return AuthorDeleted;
      }
      ByNameUpdate(records, IdOf, i, MarkRestored(records[i], reason, admin, now));
      records := records[i := MarkRestored(records[i], reason, admin, now)];
      return Updated(records[i].signed);
    }

    /** The number of peers with a visible record, and of visible records. */
    method Stats() returns (agentsAlive: nat, publicMessagesSent: nat)
      requires Valid()
      ensures agentsAlive == |VisiblePeers(Contents())|
      ensures publicMessagesSent == |VisibleIds(Contents())|
    {
      var peers: set<string> := {};
      var count := 0;
      for i := 0 to |records|
        invariant peers == VisiblePeers(ById(records[..i]))
        invariant count == |VisibleIds(ById(records[..i]))|
      {
        OneMoreRecord(records, i);
        if Visible(records[i]) {
          peers := peers + {records[i].signed.peerId};
          count := count + 1;
        }
      }
      assert records[..|records|] == records;
      return |peers|, count;
    }
  }

  /** History shows the record, and its object published last carries the tag. */
  ghost predicate ShownWithTag(h: History, id: string, tag: Option<string>) {
    Shown(h, id) && exists o :: LastPublished(h, id, o) && (tag.None? || tag.value in o.tags)
  }

  /** What history says of a record of the store. */
  lemma RecordByHistory(h: History, records: seq<StoredPublishRecord>, r: StoredPublishRecord)
    requires UniqueNames(records, IdOf) && ById(records) == Docs(h) && r in records
    ensures r.signed.id in Docs(h) && Docs(h)[r.signed.id] == r
    ensures Visible(r) <==> Shown(h, r.signed.id)
    ensures forall o :: LastPublished(h, r.signed.id, o) <==> o == r.signed
    ensures forall tag :: Listed(r, tag) <==> ShownWithTag(h, r.signed.id, tag)
  {
    var i :| 0 <= i < |records| && records[i] == r;
    ByNameElements(records, IdOf);
    StoredByHistory(h, r.signed.id);
    assert LastPublished(h, r.signed.id, r.signed);
  }

  /** The record of the store that history shows. */
  lemma ShownIsRecord(h: History, records: seq<StoredPublishRecord>, id: string)
    requires UniqueNames(records, IdOf) && ById(records) == Docs(h) && Shown(h, id)
    ensures id in Docs(h) && Docs(h)[id] in records && Docs(h)[id].signed.id == id
  {
    VisibilityByHistory(h, id);
    ByNameElements(records, IdOf);
    var i :| 0 <= i < |records| && records[i] == ById(records)[id] && IdOf(records[i]) == id;
  }

  /**
    What a search, with or without a tag, is cut from is decided by the history of the store: exactly
    the records whose id was upserted, was never author-deleted and was not left hidden, and whose
    object published last carries the tag.
  */
  lemma SearchShowsHistory(h: History, records: seq<StoredPublishRecord>, tag: Option<string>, id: string)
    requires UniqueNames(records, IdOf) && ById(records) == Docs(h)
    ensures (exists r :: r in Ordered(records, tag) && r.signed.id == id) <==> ShownWithTag(h, id, tag)
  {
    OrderedProperties(records, tag);
    if ShownWithTag(h, id, tag) {
      ShownIsRecord(h, records, id);
      RecordByHistory(h, records, Docs(h)[id]);
    }
    if exists r :: r in Ordered(records, tag) && r.signed.id == id {
      var r :| r in Ordered(records, tag) && r.signed.id == id;
      RecordByHistory(h, records, r);
    }
  }

  /**
    A finished walk of search pages over the store returns an id iff history shows it, with the tag,
    and fewer than 10000 listed records are newer.
  */
  lemma WalkShowsHistory(h: History, records: seq<StoredPublishRecord>, stores: seq<seq<StoredPublishRecord>>,
                         limits: seq<nat>, tag: Option<string>, pages: seq<Page>, id: string)
    requires UniqueNames(records, IdOf) && ById(records) == Docs(h)
    requires IsWalk(stores, limits, tag, pages) && Finished(pages) && AlwaysStore(stores, records)
    ensures id in Ids(Returned(pages))
            <==> ShownWithTag(h, id, tag) && id in Docs(h) && NewerListed(records, tag, Docs(h)[id]) < WINDOW_LIMIT
  {
    FixedStoreWalk(records, stores, limits, tag, pages);
    ReturnedIds(Truncate(Ordered(records, tag), WINDOW_LIMIT), pages, id);
    AmongListed(h, records, tag, id);
  }

  lemma ReturnedIds(window: seq<StoredPublishRecord>, pages: seq<Page>, id: string)
    requires Returned(pages) == Objects(window)
    ensures id in Ids(Returned(pages)) <==> exists r :: r in window && r.signed.id == id
  {
    var ids := Ids(Returned(pages));
    if id in ids {
      var i :| 0 <= i < |ids| && ids[i] == id;
      assert window[i] in window;
    }
    if exists r :: r in window && r.signed.id == id {
      var r :| r in window && r.signed.id == id;
      var i :| 0 <= i < |window| && window[i] == r;
      assert ids[i] == id;
    }
  }

  /** The ids in the window that walks return. */
  lemma AmongListed(h: History, records: seq<StoredPublishRecord>, tag: Option<string>, id: string)
    requires UniqueNames(records, IdOf) && ById(records) == Docs(h)
    ensures (exists r :: r in Truncate(Ordered(records, tag), WINDOW_LIMIT) && r.signed.id == id)
            <==> ShownWithTag(h, id, tag) && id in Docs(h) && NewerListed(records, tag, Docs(h)[id]) < WINDOW_LIMIT
  {
    var listed := (x: StoredPublishRecord) => Listed(x, tag);
    var window := Truncate(Ordered(records, tag), WINDOW_LIMIT);
    if ShownWithTag(h, id, tag) {
      ShownIsRecord(h, records, id);
      RecordByHistory(h, records, Docs(h)[id]);
      AmongNewestIff(records, listed, WINDOW_LIMIT, Docs(h)[id]);
    }
    if exists r :: r in window && r.signed.id == id {
      var r :| r in window && r.signed.id == id;
      AmongNewestIff(records, listed, WINDOW_LIMIT, r);
      RecordByHistory(h, records, r);
    }
  }
}
