/**
  Public publish records: what each store operation does to one record, and what a whole history of
  operations says about it.
*/
module PublishRecords {
  import opened Wrappers
  import opened CommitProtocol
  import opened Keys

  /** A signed publish record. Its signature block and capabilities are not looked at by the stores. */
  datatype PublishObject =
    PublishObject(id: string, createdAt: int, peerId: string, tags: seq<string>, body: string)

  datatype Admin = Admin(principal: string, principalHash: string)

  datatype StoredPublishRecord = StoredPublishRecord(
    signed: PublishObject,
    deleted: bool,
    hidden: bool,
    deletedAt: Option<int>,
    hiddenAt: Option<int>,
    hideReason: Option<string>,
    hiddenByPrincipal: Option<string>,
    hiddenByHash: Option<string>,
    restoredAt: Option<int>,
    restoreReason: Option<string>,
    restoredByPrincipal: Option<string>,
    restoredByHash: Option<string>)

  predicate Visible(record: StoredPublishRecord) {
    !record.deleted && !record.hidden
  }

  function RecordKey(record: StoredPublishRecord): Key {
    Key(record.signed.createdAt, record.signed.id)
  }

  function NewRecord(signed: PublishObject): StoredPublishRecord {
    StoredPublishRecord(signed, false, false, None, None, None, None, None, None, None, None, None)
  }

  function PreserveAdminState(signed: PublishObject, previous: StoredPublishRecord): StoredPublishRecord {
    previous.(signed := signed, deleted := false, deletedAt := None)
  }

  function MarkDeleted(record: StoredPublishRecord, now: int): StoredPublishRecord {
    record.(deleted := true, deletedAt := Some(now))
  }

  function MarkHidden(record: StoredPublishRecord, reason: string, admin: Admin, now: int): StoredPublishRecord {
    record.(hidden := true, hiddenAt := Some(now), hideReason := Some(reason),
            hiddenByPrincipal := Some(admin.principal), hiddenByHash := Some(admin.principalHash),
            restoredAt := None, restoreReason := None, restoredByPrincipal := None, restoredByHash := None)
  }

  function MarkRestored(record: StoredPublishRecord, reason: string, admin: Admin, now: int): StoredPublishRecord {
    record.(hidden := false, hiddenAt := None, hideReason := None,
            hiddenByPrincipal := None, hiddenByHash := None,
            restoredAt := Some(now), restoreReason := Some(reason),
            restoredByPrincipal := Some(admin.principal), restoredByHash := Some(admin.principalHash))
  }

  /** The write operations of a publish store. `now` is the time the operation writes into the record. */
  datatype PublishOp =
    | Upsert(signed: PublishObject, peerId: string)
    | AuthorDelete(peerId: string, now: int)
    | Hide(reason: string, admin: Admin, now: int)
    | Restore(reason: string, admin: Admin, now: int)

  datatype PublishStatus =
    | Stored
    | PeerConflict
    | AuthorDeleted
    | Deleted
    | NotFound
    | WrongPeer
    | Updated(signed: PublishObject)

  /** The local part of a Firestore operation: what it answers and commits for the document it read. */
  function Decide(op: PublishOp, doc: Option<StoredPublishRecord>): Decision<StoredPublishRecord, PublishStatus> {
    match op
    case Upsert(signed, peerId) =>
      (match doc
       case None => Write(NewRecord(signed), Stored)
       case Some(record) =>
         if record.signed.peerId != peerId then Keep(PeerConflict)
         else if record.deleted then Keep(AuthorDeleted)
         else Write(PreserveAdminState(signed, record), Stored))
    case AuthorDelete(peerId, now) =>
      (match doc
       case None => Keep(NotFound)
       case Some(record) =>
         if record.deleted then Keep(NotFound)
         else if record.signed.peerId != peerId then Keep(WrongPeer)
         else Write(MarkDeleted(record, now), Deleted))
    case Hide(reason, admin, now) =>
      (match doc
       case None => Keep(NotFound)
       case Some(record) =>
         if record.deleted then Keep(AuthorDeleted)
         else Write(MarkHidden(record, reason, admin, now), Updated(record.signed)))
    case Restore(reason, admin, now) =>
      (match doc
       case None => Keep(NotFound)
       case Some(record) =>
         if record.deleted then Keep(AuthorDeleted)
         else Write(MarkRestored(record, reason, admin, now), Updated(record.signed)))
  }

  function DecideRequest(request: Request<PublishOp>,
                         doc: Option<StoredPublishRecord>): Decision<StoredPublishRecord, PublishStatus>
  {
    Decide(request.op, doc)
  }

  // ---------- what a history says about one id ----------

  type History = seq<Request<PublishOp>>

  function Docs(h: History): map<string, StoredPublishRecord> {
    Replay(DecideRequest, h)
  }

  /** Request i names the id, is of the given kind, and succeeded. */
  predicate Accepted(h: History, id: string, kind: PublishOp -> bool, i: nat)
    requires i < |h|
  {
    h[i].name == id && kind(h[i].op) && LockedDecision(DecideRequest, h, i).Write?
  }

  predicate IsUpsert(op: PublishOp) { op.Upsert? }
  predicate IsDelete(op: PublishOp) { op.AuthorDelete? }
  predicate IsAdmin(op: PublishOp) { op.Hide? || op.Restore? }

  /** The last request of that kind on the id that succeeded. */
  function LastAccepted(h: History, id: string, kind: PublishOp -> bool): (r: Option<nat>)
    ensures r.Some? ==> r.value < |h|
  {
    if h == [] then None
    else if Accepted(h, id, kind, |h| - 1) then Some(|h| - 1)
    else LastAccepted(h[..|h| - 1], id, kind)
  }

  lemma AcceptedInPrefix(h: History, id: string, kind: PublishOp -> bool, k: nat, i: nat)
    requires i < k <= |h|
    ensures Accepted(h, id, kind, i) <==> Accepted(h[..k], id, kind, i)
  {
    assert h[..k][..i] == h[..i];
  }

  /** LastAccepted is the last accepted position, and is absent only when there is none. */
  lemma {:induction false} LastAcceptedMeaning(h: History, id: string, kind: PublishOp -> bool)
    ensures
      match LastAccepted(h, id, kind)
      case None => forall i :: 0 <= i < |h| ==> !Accepted(h, id, kind, i)
      case Some(k) => Accepted(h, id, kind, k) && forall i :: k < i < |h| ==> !Accepted(h, id, kind, i)
  {
    if h != [] {
      var g := h[..|h| - 1];
      LastAcceptedMeaning(g, id, kind);
      forall i | 0 <= i < |g|
        ensures Accepted(h, id, kind, i) <==> Accepted(g, id, kind, i)
      {
        AcceptedInPrefix(h, id, kind, |g|, i);
      }
    }
  }

  /** The moderation fields are those of the admin action given, or untouched when there was none. */
  predicate ModerationIs(record: StoredPublishRecord, action: Option<PublishOp>) {
    match action
    case None =>
      !record.hidden
      && record.hiddenAt == None && record.hideReason == None
      && record.hiddenByPrincipal == None && record.hiddenByHash == None
      && record.restoredAt == None && record.restoreReason == None
      && record.restoredByPrincipal == None && record.restoredByHash == None
    case Some(Hide(reason, admin, now)) =>
      record.hidden
      && record.hiddenAt == Some(now) && record.hideReason == Some(reason)
      && record.hiddenByPrincipal == Some(admin.principal) && record.hiddenByHash == Some(admin.principalHash)
      && record.restoredAt == None && record.restoreReason == None
      && record.restoredByPrincipal == None && record.restoredByHash == None
    case Some(Restore(reason, admin, now)) =>
      !record.hidden
      && record.hiddenAt == None && record.hideReason == None
      && record.hiddenByPrincipal == None && record.hiddenByHash == None
      && record.restoredAt == Some(now) && record.restoreReason == Some(reason)
      && record.restoredByPrincipal == Some(admin.principal) && record.restoredByHash == Some(admin.principalHash)
    case Some(_) => false
  }

  function OpAt(h: History, i: Option<nat>): Option<PublishOp>
    requires i.Some? ==> i.value < |h|
  {
    if i.Some? then Some(h[i.value].op) else None
  }

  /** A document agrees with the last accepted upsert, delete and admin action on its id. */
  predicate Explains(doc: Option<StoredPublishRecord>, upsert: Option<PublishOp>, delete: Option<PublishOp>,
                     admin: Option<PublishOp>)
  {
    match doc
    case None => upsert.None? && delete.None? && admin.None?
    case Some(record) =>
      && upsert.Some? && upsert.value.Upsert? && record.signed == upsert.value.signed
      && record.deleted == delete.Some?
      && (delete.Some? ==> delete.value.AuthorDelete? && record.deletedAt == Some(delete.value.now))
      && (delete.None? ==> record.deletedAt == None)
      && ModerationIs(record, admin)
  }

  /** One accepted operation changes the document and the explanation together. */
  lemma DecideExplained(op: PublishOp, doc: Option<StoredPublishRecord>, upsert: Option<PublishOp>,
                        delete: Option<PublishOp>, admin: Option<PublishOp>)
    requires Explains(doc, upsert, delete, admin)
    ensures Decide(op, doc).Write? ==>
      Explains(Some(Decide(op, doc).value),
               if op.Upsert? then Some(op) else upsert,
               if op.AuthorDelete? then Some(op) else delete,
               if op.Hide? || op.Restore? then Some(op) else admin)
  {
  }

  /**
    A record is there iff an upsert was accepted; its object is that of the last accepted upsert, it
    is deleted iff a delete was accepted, and its moderation fields are those of the last accepted
    admin action.
  */
  lemma {:induction false} RecordFromHistory(h: History, id: string)
    ensures Explains(Lookup(Docs(h), id),
                     OpAt(h, LastAccepted(h, id, IsUpsert)),
                     OpAt(h, LastAccepted(h, id, IsDelete)),
                     OpAt(h, LastAccepted(h, id, IsAdmin)))
  {
    if h != [] {
      var g, last := h[..|h| - 1], h[|h| - 1];
      RecordFromHistory(g, id);
      var u, d, a := LastAccepted(g, id, IsUpsert), LastAccepted(g, id, IsDelete), LastAccepted(g, id, IsAdmin);
      DecideExplained(last.op, Lookup(Docs(g), id), OpAt(g, u), OpAt(g, d), OpAt(g, a));
      assert OpAt(h, u) == OpAt(g, u) && OpAt(h, d) == OpAt(g, d) && OpAt(h, a) == OpAt(g, a);
    }
  }

  /**
    History shows a record: some upsert of it was accepted, no delete ever was, and every accepted
    hide was followed by an accepted restore.
  */
  ghost predicate Shown(h: History, id: string) {
    && (exists i :: 0 <= i < |h| && Accepted(h, id, IsUpsert, i))
    && (forall i :: 0 <= i < |h| ==> !Accepted(h, id, IsDelete, i))
    && (forall i :: 0 <= i < |h| && Accepted(h, id, IsAdmin, i) && h[i].op.Hide? ==>
          exists j :: i < j < |h| && Accepted(h, id, IsAdmin, j) && h[j].op.Restore?)
  }

  /** Visibility is decided by history: a record is there and visible iff history shows it. */
  lemma VisibilityByHistory(h: History, id: string)
    ensures (id in Docs(h) && Visible(Docs(h)[id])) <==> Shown(h, id)
  {
    RecordFromHistory(h, id);
    LastAcceptedMeaning(h, id, IsUpsert);
    LastAcceptedMeaning(h, id, IsDelete);
    LastAcceptedMeaning(h, id, IsAdmin);
    var last := LastAccepted(h, id, IsAdmin);
    if last.Some? && h[last.value].op.Restore? {
      forall i | 0 <= i < |h| && Accepted(h, id, IsAdmin, i) && h[i].op.Hide?
        ensures exists j :: i < j < |h| && Accepted(h, id, IsAdmin, j) && h[j].op.Restore?
      {
        assert i < last.value;
      }
    }
  }

  /** The object is the one the last accepted upsert of the id carried. */
  predicate LastPublished(h: History, id: string, published: PublishObject) {
    match OpAt(h, LastAccepted(h, id, IsUpsert))
    case Some(Upsert(signed, _)) => signed == published
    case _ => false
  }

  /** A stored record is visible iff history shows it, and carries the object published last. */
  lemma StoredByHistory(h: History, id: string)
    requires id in Docs(h)
    ensures Visible(Docs(h)[id]) <==> Shown(h, id)
    ensures forall o :: LastPublished(h, id, o) <==> o == Docs(h)[id].signed
  {
    VisibilityByHistory(h, id);
    RecordFromHistory(h, id);
  }

  /**
    What the publish handler guarantees before it calls the store: the peer id the signature proves
    is the one in the payload.
  */
  ghost predicate SignaturesVerified(h: History) {
    forall i :: 0 <= i < |h| && h[i].op.Upsert? ==>
      h[i].op.peerId == h[i].op.signed.peerId && h[i].name == h[i].op.signed.id
  }

  /** The owner of a record is the peer whose upsert was accepted first, and never changes. */
  lemma {:induction false} OwnerIsFirstPublisher(h: History, id: string, first: nat)
    requires SignaturesVerified(h)
    requires first < |h| && Accepted(h, id, IsUpsert, first)
    requires forall i :: 0 <= i < first ==> !Accepted(h, id, IsUpsert, i)
    ensures id in Docs(h) && Docs(h)[id].signed.peerId == h[first].op.signed.peerId
    ensures Docs(h)[id].signed.id == id
  {
    var g := h[..|h| - 1];
    assert h == g + [h[|h| - 1]];
    if first == |h| - 1 {
      forall i | 0 <= i < |g|
        ensures !Accepted(g, id, IsUpsert, i)
      {
        AcceptedInPrefix(h, id, IsUpsert, |g|, i);
      }
      RecordFromHistory(g, id);
      LastAcceptedMeaning(g, id, IsUpsert);
    } else {
      AcceptedInPrefix(h, id, IsUpsert, |g|, first);
      forall i | 0 <= i < first
        ensures !Accepted(g, id, IsUpsert, i)
      {
        AcceptedInPrefix(h, id, IsUpsert, |g|, i);
      }
      OwnerIsFirstPublisher(g, id, first);
    }
  }

  /**
    Author deletion is final: once a delete of the id was accepted, the record keeps exactly the
    value it had then and stays invisible.
  */
  lemma {:induction false} AuthorDeletionIsFinal(h: History, id: string, d: nat, k: nat)
    requires d < k <= |h| && Accepted(h, id, IsDelete, d)
    ensures id in Docs(h[..k]) && Docs(h[..k])[id].deleted && !Visible(Docs(h[..k])[id])
    ensures Lookup(Docs(h[..k]), id) == Lookup(Docs(h[..d + 1]), id)
  {
    if k == d + 1 {
      assert h[..k][..d] == h[..d];
    } else {
      AuthorDeletionIsFinal(h, id, d, k - 1);
      assert h[..k][..k - 1] == h[..k - 1];
    }
  }

  /** So nothing is accepted on a deleted id any more: upserts, deletes and admin actions all fail. */
  lemma NothingAcceptedAfterDeletion(h: History, id: string, d: nat, k: nat)
    requires d < k < |h| && Accepted(h, id, IsDelete, d) && h[k].name == id
    ensures id in Docs(h[..k])
    ensures LockedDecision(DecideRequest, h, k) == Keep(
      match h[k].op
      case Upsert(_, peerId) =>
        if Docs(h[..k])[id].signed.peerId != peerId then PeerConflict else AuthorDeleted
      case AuthorDelete(_, _) => NotFound
      case _ => AuthorDeleted)
  {
    AuthorDeletionIsFinal(h, id, d, k);
  }
}
