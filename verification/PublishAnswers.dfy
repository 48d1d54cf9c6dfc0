/**
  What every request on a publish record is answered, by the history of accepted requests alone: who
  may publish, delete and moderate, and what the statistics count.
*/
module PublishAnswers {
  import opened Wrappers
  import opened CommitProtocol
  import opened PublishRecords
  import Files = FilePublishStore

  /** Position `first` is the first accepted upsert of the id. */
  ghost predicate FirstUpsert(h: History, id: string, first: int) {
    && 0 <= first < |h| && Accepted(h, id, IsUpsert, first)
    && forall i :: 0 <= i < first ==> !Accepted(h, id, IsUpsert, i)
  }

  /** Position `last` is the last accepted upsert of the id before position `end`. */
  ghost predicate LastUpsert(h: History, id: string, last: int, end: int) {
    && 0 <= last < end <= |h| && Accepted(h, id, IsUpsert, last)
    && forall i :: last < i < end ==> !Accepted(h, id, IsUpsert, i)
  }

  /** The author has deleted the record before position `end`. */
  ghost predicate DeletedBefore(h: History, id: string, end: int) {
    exists i :: 0 <= i < end <= |h| && Accepted(h, id, IsDelete, i)
  }

  lemma AcceptedBefore(h: History, id: string, kind: PublishOp -> bool, k: nat)
    requires k <= |h|
    ensures forall i :: 0 <= i < k ==> (Accepted(h[..k], id, kind, i) <==> Accepted(h, id, kind, i))
  {
    forall i | 0 <= i < k
      ensures Accepted(h[..k], id, kind, i) <==> Accepted(h, id, kind, i)
    {
      AcceptedInPrefix(h, id, kind, k, i);
    }
  }

  /** The document a request finds, when no upsert of its id was accepted before. */
  lemma NeverPublished(h: History, i: nat)
    requires i < |h| && forall j :: 0 <= j < i ==> !Accepted(h, h[i].name, IsUpsert, j)
    ensures h[i].name !in Docs(h[..i])
  {
    AcceptedBefore(h, h[i].name, IsUpsert, i);
    RecordFromHistory(h[..i], h[i].name);
    LastAcceptedMeaning(h[..i], h[i].name, IsUpsert);
  }

  /** The document a request finds otherwise: its owner, its tombstone and its object. */
  lemma Found(h: History, i: nat, first: int, last: int)
    requires SignaturesVerified(h) && i < |h| && first < i
    requires FirstUpsert(h, h[i].name, first) && LastUpsert(h, h[i].name, last, i)
    ensures
      var docs := Docs(h[..i]);
      && h[i].name in docs
      && docs[h[i].name].signed.peerId == h[first].op.peerId
      && docs[h[i].name].signed == h[last].op.signed
      && (docs[h[i].name].deleted <==> DeletedBefore(h, h[i].name, i))
  {
    var id, g := h[i].name, h[..i];
    AcceptedBefore(h, id, IsUpsert, i);
    AcceptedBefore(h, id, IsDelete, i);
    OwnerIsFirstPublisher(g, id, first);
    RecordFromHistory(g, id);
    LastAcceptedMeaning(g, id, IsUpsert);
    LastAcceptedMeaning(g, id, IsDelete);
    assert LastAccepted(g, id, IsUpsert) == Some(last);
  }

  /** A request on an id that was never published: only an upsert does anything. */
  lemma AnswerToUnknown(h: History, i: nat)
    requires i < |h| && forall j :: 0 <= j < i ==> !Accepted(h, h[i].name, IsUpsert, j)
    ensures
      var d := LockedDecision(DecideRequest, h, i);
      && d.answer == (if h[i].op.Upsert? then Stored else NotFound)
      && (d.Write? <==> h[i].op.Upsert?)
  {
    NeverPublished(h, i);
  }

  /**
    A request on a published id. Only the peer of the first accepted upsert may publish again or
    delete; another peer is told so, unless the record is gone for a delete anyway. A deleted record
    takes nothing more. An admin sees the object published last. The record changes iff the answer
    says so.
  */
  lemma AnswerByHistory(h: History, i: nat, first: int, last: int)
    requires SignaturesVerified(h) && i < |h| && first < i
    requires FirstUpsert(h, h[i].name, first) && LastUpsert(h, h[i].name, last, i)
    ensures
      var d := LockedDecision(DecideRequest, h, i);
      var owner, deleted := h[first].op.peerId, DeletedBefore(h, h[i].name, i);
      && (match h[i].op
          case Upsert(_, peerId) =>
            && (d.answer == PeerConflict <==> peerId != owner)
            && (d.answer == AuthorDeleted <==> peerId == owner && deleted)
            && (d.answer == Stored <==> peerId == owner && !deleted)
          case AuthorDelete(peerId, _) =>
            && (d.answer == NotFound <==> deleted)
            && (d.answer == WrongPeer <==> !deleted && peerId != owner)
            && (d.answer == Deleted <==> !deleted && peerId == owner)
          case _ =>
            && (d.answer == AuthorDeleted <==> deleted)
            && (d.answer == Updated(h[last].op.signed) <==> !deleted))
      && (d.Write? <==> d.answer in {Stored, Deleted} || d.answer.Updated?)
  {
    Found(h, i, first, last);
  }

  /** A record was published before anything else was accepted on it. */
  lemma PublishedFirst(h: History, id: string, kind: PublishOp -> bool, i: nat) returns (first: nat, last: nat)
    requires i < |h| && Accepted(h, id, kind, i) && !h[i].op.Upsert?
    ensures first < i && FirstUpsert(h, id, first) && LastUpsert(h, id, last, i)
  {
    if forall j :: 0 <= j < i ==> !Accepted(h, id, IsUpsert, j) {
      AnswerToUnknown(h, i);
    }
    first := FirstOf(h, id, i);
    last := LastOf(h, id, i);
  }

  lemma FirstOf(h: History, id: string, end: nat) returns (first: nat)
    requires end <= |h| && exists j :: 0 <= j < end && Accepted(h, id, IsUpsert, j)
    ensures first < end && FirstUpsert(h, id, first)
  {
    first := 0;
    while !Accepted(h, id, IsUpsert, first)
      invariant first < end && forall i :: 0 <= i < first ==> !Accepted(h, id, IsUpsert, i)
      invariant exists j :: first <= j < end && Accepted(h, id, IsUpsert, j)
      decreases end - first
    {
      first := first + 1;
    }
  }

  lemma LastOf(h: History, id: string, end: nat) returns (last: nat)
    requires end <= |h| && exists j :: 0 <= j < end && Accepted(h, id, IsUpsert, j)
    ensures LastUpsert(h, id, last, end)
  {
    last := end - 1;
    while !Accepted(h, id, IsUpsert, last)
      invariant 0 <= last < end && forall i :: last < i < end ==> !Accepted(h, id, IsUpsert, i)
      invariant exists j :: 0 <= j <= last && Accepted(h, id, IsUpsert, j)
      decreases last
    {
      last := last - 1;
    }
  }

  /** Only the peer that published a record first ever deletes it. */
  lemma OnlyOwnerDeletes(h: History, id: string, i: nat, first: int)
    requires SignaturesVerified(h) && i < |h| && Accepted(h, id, IsDelete, i) && FirstUpsert(h, id, first)
    ensures first < i && h[i].op.peerId == h[first].op.peerId
  {
    var begin, last := PublishedFirst(h, id, IsDelete, i);
    assert begin == first;
    AnswerByHistory(h, i, first, last);
  }

  /** And only that peer ever publishes it again. */
  lemma OnlyOwnerPublishes(h: History, id: string, i: nat, first: int)
    requires SignaturesVerified(h) && i < |h| && Accepted(h, id, IsUpsert, i) && FirstUpsert(h, id, first)
    ensures h[i].op.peerId == h[first].op.peerId
  {
    if i != first {
      var last := LastOf(h, id, i);
      AnswerByHistory(h, i, first, last);
    }
  }

  /**
    The same for the answers clients get from Firestore, in every interleaving: a client whose delete
    was answered as done is the one whose upsert of the id was committed first.
  */
  lemma OnlyOwnerDeletesUnderInterleaving(steps: seq<Step<PublishOp>>, r: nat, first: int)
    requires
      var s := Run(DecideRequest, steps);
      && SignaturesVerified(Requests(s.log))
      && r < |s.replies| && s.replies[r].request.op.AuthorDelete? && s.replies[r].answer == Some(Deleted)
      && FirstUpsert(Requests(s.log), s.replies[r].request.name, first)
    ensures
      var s := Run(DecideRequest, steps);
      s.replies[r].request.op.peerId == s.log[first].request.op.peerId
  {
    var s := Run(DecideRequest, steps);
    FirestoreRefinesLockedStore(DecideRequest, steps);
    var reply, h := s.replies[r], Requests(s.log);
    var i := reply.logged - 1;
    var d := LockedDecision(DecideRequest, h, i);
    assert h[i] == reply.request && d.answer == Deleted;
    assert Accepted(h, reply.request.name, IsDelete, i);
    OnlyOwnerDeletes(h, reply.request.name, i, first);
  }

  // ---------- statistics ----------

  /**
    The messages counted are the ids that history shows, and the agents the peers that published one of
    them last.
  */
  lemma StatsByHistory(h: History)
    ensures forall id :: id in Files.VisibleIds(Docs(h)) <==> Shown(h, id)
    ensures forall peer :: peer in Files.VisiblePeers(Docs(h)) <==>
              exists id, o :: Shown(h, id) && LastPublished(h, id, o) && o.peerId == peer
  {
    forall id
      ensures id in Files.VisibleIds(Docs(h)) <==> Shown(h, id)
    {
      VisibilityByHistory(h, id);
    }
    forall peer | peer in Files.VisiblePeers(Docs(h))
      ensures exists id, o :: Shown(h, id) && LastPublished(h, id, o) && o.peerId == peer
    {
      var id :| id in Docs(h) && Visible(Docs(h)[id]) && Docs(h)[id].signed.peerId == peer;
      StoredByHistory(h, id);
      VisibilityByHistory(h, id);
      assert LastPublished(h, id, Docs(h)[id].signed);
    }
    forall peer, id, o | Shown(h, id) && LastPublished(h, id, o) && o.peerId == peer
      ensures peer in Files.VisiblePeers(Docs(h))
    {
      VisibilityByHistory(h, id);
      StoredByHistory(h, id);
    }
  }
}
