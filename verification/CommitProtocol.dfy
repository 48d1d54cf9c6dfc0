/**
  The read, modify, commit-with-precondition protocol of the Firestore stores, over any number of
  documents and clients, and its refinement to the locked file store.

  A request is answered by `decide`, which looks at the named document only. The locked store runs
  one request at a time. The Firestore form splits a request into a GET, which also computes the
  answer and the new document, and a commit that Firestore applies atomically iff the document is
  still missing, or still has the update time the GET returned.
*/
module CommitProtocol {
  import opened Wrappers

  /** What one request does to the document it names. */
  datatype Decision<+T, +A> = Keep(answer: A) | Write(value: T, answer: A)

  datatype Request<+Op> = Request(name: string, op: Op)

  // ---------- the locked store: one request at a time ----------

  function Applied<T, A>(docs: map<string, T>, name: string, d: Decision<T, A>): map<string, T> {
    if d.Write? then docs[name := d.value] else docs
  }

  /** The documents after running the requests in turn from an empty store. */
  function Replay<T, A, Op>(decide: (Request<Op>, Option<T>) -> Decision<T, A>,
                            requests: seq<Request<Op>>): map<string, T>
  {
    if requests == [] then map[]
    else
      var docs := Replay(decide, requests[..|requests| - 1]);
      var last := requests[|requests| - 1];
      Applied(docs, last.name, decide(last, Lookup(docs, last.name)))
  }

  /** What the locked store decides on request i of a sequence run from an empty store. */
  function LockedDecision<T, A, Op>(decide: (Request<Op>, Option<T>) -> Decision<T, A>, requests: seq<Request<Op>>,
                                    i: nat): Decision<T, A>
    requires i < |requests|
  {
    decide(requests[i], Lookup(Replay(decide, requests[..i]), requests[i].name))
  }

  // ---------- the Firestore form ----------

  datatype Document<+T> = Document(value: T, updateTime: nat)

  /** A request between its GET and its commit. `readAt` is the number of requests logged at the GET. */
  datatype Pending<+T, +A, +Op> =
    Pending(request: Request<Op>, seen: Option<Document<T>>, value: T, answer: A, readAt: nat)

  /** A request that has taken effect: at its commit, or at its GET when it commits nothing. */
  datatype Entry<+A, +Op> = Entry(client: nat, request: Request<Op>, answer: A, readAt: nat, wrote: bool)

  /** What a caller was told; None is the storage error. `logged` is the number of requests logged by then. */
  datatype Reply<+A, +Op> = Reply(client: nat, request: Request<Op>, answer: Option<A>, logged: nat)

  datatype System<T, A, Op> = System(
    docs: map<string, Document<T>>,
    usedTimes: set<nat>,
    pending: map<nat, Pending<T, A, Op>>,
    log: seq<Entry<A, Op>>,
    replies: seq<Reply<A, Op>>)

  /**
    One step of the system. `Commit` carries the update time Firestore gives the document, which
    must be fresh, and whether the reply reaches the client. `Abandon` is a request that fails
    before its commit reaches Firestore. A step that is not possible changes nothing.
  */
  datatype Step<+Op> =
    | Get(client: nat, request: Request<Op>)
    | Commit(client: nat, time: nat, delivered: bool)
    | Abandon(client: nat)

  function Initial<T, A, Op>(): System<T, A, Op> {
    System(map[], {}, map[], [], [])
  }

  /** The precondition of a commit: no document, or the update time seen. */
  predicate PreconditionHolds<T, A, Op>(docs: map<string, Document<T>>, p: Pending<T, A, Op>) {
    match p.seen
    case None => p.request.name !in docs
    case Some(seen) => p.request.name in docs && docs[p.request.name].updateTime == seen.updateTime
  }

  function ValueOf<T>(doc: Option<Document<T>>): Option<T> {
    if doc.Some? then Some(doc.value.value) else None
  }

  function DoGet<T, A, Op>(decide: (Request<Op>, Option<T>) -> Decision<T, A>, s: System<T, A, Op>, client: nat,
                           request: Request<Op>): System<T, A, Op>
  {
    var seen := Lookup(s.docs, request.name);
    match decide(request, ValueOf(seen))
    case Keep(answer) =>
      var log := s.log + [Entry(client, request, answer, |s.log|, false)];
      s.(log := log, replies := s.replies + [Reply(client, request, Some(answer), |log|)])
    case Write(value, answer) =>
      s.(pending := s.pending[client := Pending(request, seen, value, answer, |s.log|)])
  }

  function DoCommit<T, A, Op>(s: System<T, A, Op>, client: nat, time: nat, delivered: bool): System<T, A, Op>
    requires client in s.pending
  {
    var p := s.pending[client];
    var pending := s.pending - {client};
    if PreconditionHolds(s.docs, p) then
      var log := s.log + [Entry(client, p.request, p.answer, p.readAt, true)];
      var answer := if delivered then Some(p.answer) else None;
      System(s.docs[p.request.name := Document(p.value, time)], s.usedTimes + {time}, pending, log,
             s.replies + [Reply(client, p.request, answer, |log|)])
    else
      s.(pending := pending, replies := s.replies + [Reply(client, p.request, None, |s.log|)])
  }

  function Next<T, A, Op>(decide: (Request<Op>, Option<T>) -> Decision<T, A>, s: System<T, A, Op>,
                          step: Step<Op>): System<T, A, Op>
  {
    match step
    case Get(client, request) =>
      if client in s.pending then s else DoGet(decide, s, client, request)
    case Commit(client, time, delivered) =>
      if client !in s.pending || time in s.usedTimes then s else DoCommit(s, client, time, delivered)
    case Abandon(client) =>
      if client !in s.pending then s
      else s.(pending := s.pending - {client},
              replies := s.replies + [Reply(client, s.pending[client].request, None, |s.log|)])
  }

  function Run<T, A, Op>(decide: (Request<Op>, Option<T>) -> Decision<T, A>, steps: seq<Step<Op>>): System<T, A, Op> {
    if steps == [] then Initial()
    else Next(decide, Run(decide, steps[..|steps| - 1]), steps[|steps| - 1])
  }

  // ---------- the refinement ----------

  function Requests<A, Op>(log: seq<Entry<A, Op>>): (r: seq<Request<Op>>)
    ensures |r| == |log|
    ensures forall i :: 0 <= i < |log| ==> r[i] == log[i].request
  {
    seq(|log|, i requires 0 <= i < |log| => log[i].request)
  }

  function Values<T>(docs: map<string, Document<T>>): map<string, T> {
    map name | name in docs :: docs[name].value
  }

  /** Each logged request was answered, and wrote or not, as the locked store does at that point. */
  ghost predicate LogIsSequential<T, A, Op>(decide: (Request<Op>, Option<T>) -> Decision<T, A>,
                                            log: seq<Entry<A, Op>>)
  {
    forall i :: 0 <= i < |log| ==>
      var d := LockedDecision(decide, Requests(log), i);
      d.answer == log[i].answer && d.Write? == log[i].wrote && log[i].readAt <= i
  }

  /** No request logged from position `from` on wrote the document. */
  ghost predicate Undisturbed<A, Op>(log: seq<Entry<A, Op>>, from: nat, name: string) {
    forall i :: from <= i < |log| ==> !(log[i].wrote && log[i].request.name == name)
  }

  ghost predicate PendingOk<T, A, Op>(decide: (Request<Op>, Option<T>) -> Decision<T, A>, s: System<T, A, Op>,
                                      p: Pending<T, A, Op>)
  {
    && decide(p.request, ValueOf(p.seen)) == Write(p.value, p.answer)
    && (p.seen.Some? ==> p.seen.value.updateTime in s.usedTimes && p.request.name in s.docs)
    && (PreconditionHolds(s.docs, p) ==> Lookup(s.docs, p.request.name) == p.seen)
    && p.readAt <= |s.log|
    && (PreconditionHolds(s.docs, p) <==> Undisturbed(s.log, p.readAt, p.request.name))
  }

  ghost predicate Inv<T, A, Op>(decide: (Request<Op>, Option<T>) -> Decision<T, A>, s: System<T, A, Op>) {
    && Values(s.docs) == Replay(decide, Requests(s.log))
    && LogIsSequential(decide, s.log)
    && (forall name :: name in s.docs ==> s.docs[name].updateTime in s.usedTimes)
    && (forall c :: c in s.pending ==> PendingOk(decide, s, s.pending[c]))
  }

  lemma LookupValues<T>(docs: map<string, Document<T>>, name: string)
    ensures Lookup(Values(docs), name) == ValueOf(Lookup(docs, name))
  {
  }

  /** What was decided before does not change when the log grows. */
  lemma DecidedBefore<T, A, Op>(decide: (Request<Op>, Option<T>) -> Decision<T, A>, log: seq<Entry<A, Op>>,
                                e: Entry<A, Op>, i: nat)
    requires i < |log|
    ensures LockedDecision(decide, Requests(log + [e]), i) == LockedDecision(decide, Requests(log), i)
  {
    assert Requests(log + [e])[..i] == Requests(log)[..i];
  }

  /** Logging a request that the locked store would answer the same way keeps the log sequential. */
  lemma AppendEntry<T, A, Op>(decide: (Request<Op>, Option<T>) -> Decision<T, A>, log: seq<Entry<A, Op>>,
                              e: Entry<A, Op>)
    requires LogIsSequential(decide, log) && e.readAt <= |log|
    requires
      var d := decide(e.request, Lookup(Replay(decide, Requests(log)), e.request.name));
      d.answer == e.answer && d.Write? == e.wrote
    ensures LogIsSequential(decide, log + [e])
    ensures
      var docs := Replay(decide, Requests(log));
      Replay(decide, Requests(log + [e]))
      == Applied(docs, e.request.name, decide(e.request, Lookup(docs, e.request.name)))
  {
    var log' := log + [e];
    assert Requests(log')[..|log|] == Requests(log);
    forall i | 0 <= i < |log'|
      ensures
        var d := LockedDecision(decide, Requests(log'), i);
        d.answer == log'[i].answer && d.Write? == log'[i].wrote && log'[i].readAt <= i
    {
      if i < |log| {
        DecidedBefore(decide, log, e, i);
      }
    }
  }

  lemma AppendUndisturbed<A, Op>(log: seq<Entry<A, Op>>, e: Entry<A, Op>, from: nat, name: string)
    requires from <= |log|
    ensures Undisturbed(log + [e], from, name)
            <==> Undisturbed(log, from, name) && !(e.wrote && e.request.name == name)
  {
    assert (log + [e])[|log|] == e;
    forall i | from <= i < |log|
      ensures (log + [e])[i] == log[i]
    {
    }
  }

  /** A request that only reads leaves every waiting request as it was. */
  lemma ReadKeepsPending<T, A, Op>(
      decide: (Request<Op>, Option<T>) -> Decision<T, A>, s: System<T, A, Op>, s': System<T, A, Op>,
      e: Entry<A, Op>, q: Pending<T, A, Op>)
    requires PendingOk(decide, s, q) && !e.wrote && s'.log == s.log + [e]
    requires s'.docs == s.docs && s'.usedTimes == s.usedTimes
    ensures PendingOk(decide, s', q)
  {
    AppendUndisturbed(s.log, e, q.readAt, q.request.name);
  }

  lemma GetKeepsInv<T, A, Op>(decide: (Request<Op>, Option<T>) -> Decision<T, A>, s: System<T, A, Op>, client: nat,
                              request: Request<Op>)
    requires Inv(decide, s) && client !in s.pending
    ensures Inv(decide, DoGet(decide, s, client, request))
  {
    LookupValues(s.docs, request.name);
    var s' := DoGet(decide, s, client, request);
    var d := decide(request, ValueOf(Lookup(s.docs, request.name)));
    if d.Keep? {
      var e := Entry(client, request, d.answer, |s.log|, false);
      AppendEntry(decide, s.log, e);
      forall c | c in s'.pending
        ensures PendingOk(decide, s', s'.pending[c])
      {
        ReadKeepsPending(decide, s, s', e, s.pending[c]);
      }
    } else {
      forall c | c in s'.pending
        ensures PendingOk(decide, s', s'.pending[c])
      {
        if c != client {
          assert PendingOk(decide, s, s.pending[c]);
        }
      }
    }
  }

  lemma CommitKeepsPending<T, A, Op>(
      decide: (Request<Op>, Option<T>) -> Decision<T, A>, s: System<T, A, Op>, s': System<T, A, Op>,
      e: Entry<A, Op>, q: Pending<T, A, Op>, time: nat)
    requires PendingOk(decide, s, q) && time !in s.usedTimes && e.wrote && s'.log == s.log + [e]
    requires e.request.name in s'.docs && s'.docs[e.request.name].updateTime == time
    requires s'.docs.Keys == s.docs.Keys + {e.request.name} && s'.usedTimes == s.usedTimes + {time}
    requires forall name :: name in s.docs && name != e.request.name ==> s'.docs[name] == s.docs[name]
    ensures PendingOk(decide, s', q)
  {
    AppendUndisturbed(s.log, e, q.readAt, q.request.name);
  }

  lemma CommitKeepsInv<T, A, Op>(decide: (Request<Op>, Option<T>) -> Decision<T, A>, s: System<T, A, Op>, client: nat,
                                 time: nat, delivered: bool)
    requires Inv(decide, s) && client in s.pending && time !in s.usedTimes
    ensures Inv(decide, DoCommit(s, client, time, delivered))
  {
    var p := s.pending[client];
    var s' := DoCommit(s, client, time, delivered);
    assert PendingOk(decide, s, p);
    if PreconditionHolds(s.docs, p) {
      SuccessfulCommitKeepsInv(decide, s, client, time, delivered);
    } else {
      forall c | c in s'.pending
        ensures PendingOk(decide, s', s'.pending[c])
      {
        assert PendingOk(decide, s, s.pending[c]);
      }
    }
  }

  lemma ValuesAfterCommit<T>(docs: map<string, Document<T>>, name: string, value: T, time: nat)
    ensures Values(docs[name := Document(value, time)]) == Values(docs)[name := value]
  {
  }

  /** The documents stay those of the log when a commit goes through. */
  lemma CommitIsLogged<T, A, Op>(decide: (Request<Op>, Option<T>) -> Decision<T, A>, s: System<T, A, Op>,
                                 p: Pending<T, A, Op>, e: Entry<A, Op>, time: nat)
    requires Values(s.docs) == Replay(decide, Requests(s.log)) && LogIsSequential(decide, s.log)
    requires PendingOk(decide, s, p) && PreconditionHolds(s.docs, p)
    requires e.request == p.request && e.answer == p.answer && e.readAt == p.readAt && e.wrote
    ensures Values(s.docs[p.request.name := Document(p.value, time)]) == Replay(decide, Requests(s.log + [e]))
    ensures LogIsSequential(decide, s.log + [e])
  {
    var name := p.request.name;
    LookupValues(s.docs, name);
    AppendEntry(decide, s.log, e);
    ValuesAfterCommit(s.docs, name, p.value, time);
  }

  lemma SuccessfulCommitKeepsInv<T, A, Op>(decide: (Request<Op>, Option<T>) -> Decision<T, A>, s: System<T, A, Op>,
                                           client: nat, time: nat, delivered: bool)
    requires Inv(decide, s) && client in s.pending && time !in s.usedTimes
    requires PreconditionHolds(s.docs, s.pending[client])
    ensures Inv(decide, DoCommit(s, client, time, delivered))
  {
    var p := s.pending[client];
    var s' := DoCommit(s, client, time, delivered);
    var e := Entry(client, p.request, p.answer, p.readAt, true);
    assert PendingOk(decide, s, p);
    CommitIsLogged(decide, s, p, e, time);
    forall c | c in s'.pending
      ensures PendingOk(decide, s', s'.pending[c])
    {
      assert s'.pending[c] == s.pending[c] && PendingOk(decide, s, s.pending[c]);
      CommitKeepsPending(decide, s, s', e, s.pending[c], time);
    }
  }

  /** Every step of every interleaving keeps the invariant. */
  lemma NextKeepsInv<T, A, Op>(decide: (Request<Op>, Option<T>) -> Decision<T, A>, s: System<T, A, Op>, step: Step<Op>)
    requires Inv(decide, s)
    ensures Inv(decide, Next(decide, s, step))
  {
    match step
    case Get(client, request) =>
      if client !in s.pending {
        GetKeepsInv(decide, s, client, request);
      }
    case Commit(client, time, delivered) =>
      if client in s.pending && time !in s.usedTimes {
        CommitKeepsInv(decide, s, client, time, delivered);
      }
    case Abandon(client) =>
      var s' := Next(decide, s, step);
      forall c | c in s'.pending
        ensures PendingOk(decide, s', s'.pending[c])
      {
        assert PendingOk(decide, s, s.pending[c]);
      }
  }

  lemma {:induction false} RunKeepsInv<T, A, Op>(decide: (Request<Op>, Option<T>) -> Decision<T, A>,
                                                 steps: seq<Step<Op>>)
    ensures Inv(decide, Run(decide, steps))
  {
    if steps == [] {
      assert Requests<A, Op>([]) == [];
    } else {
      RunKeepsInv(decide, steps[..|steps| - 1]);
      NextKeepsInv(decide, Run(decide, steps[..|steps| - 1]), steps[|steps| - 1]);
    }
  }

  /** Everything a caller is told is in the log, and was logged after its GET and before the reply. */
  ghost predicate RepliesAreLogged<T, A, Op>(s: System<T, A, Op>) {
    forall r :: 0 <= r < |s.replies| && s.replies[r].answer.Some? ==>
      var reply := s.replies[r];
      && 0 < reply.logged <= |s.log|
      && var e := s.log[reply.logged - 1];
         e.client == reply.client && e.request == reply.request && e.answer == reply.answer.value
  }

  /** One more reply, about the entry logged last or about nothing. */
  lemma OneMoreReply<T, A, Op>(s: System<T, A, Op>, s': System<T, A, Op>, reply: Reply<A, Op>)
    requires RepliesAreLogged(s) && s.log <= s'.log && s'.replies == s.replies + [reply]
    requires reply.answer.Some? ==>
               && 0 < reply.logged <= |s'.log|
               && var e := s'.log[reply.logged - 1];
                  e.client == reply.client && e.request == reply.request && e.answer == reply.answer.value
    ensures RepliesAreLogged(s')
  {
    forall r | 0 <= r < |s'.replies| && s'.replies[r].answer.Some?
      ensures 0 < s'.replies[r].logged <= |s'.log|
      ensures
        var e := s'.log[s'.replies[r].logged - 1];
        e.client == s'.replies[r].client && e.request == s'.replies[r].request && e.answer == s'.replies[r].answer.value
    {
      if r < |s.replies| {
        assert s'.replies[r] == s.replies[r];
      }
    }
  }

  lemma NextLogsReplies<T, A, Op>(decide: (Request<Op>, Option<T>) -> Decision<T, A>, s: System<T, A, Op>,
                                  step: Step<Op>)
    requires RepliesAreLogged(s)
    ensures RepliesAreLogged(Next(decide, s, step))
  {
    var s' := Next(decide, s, step);
    if s'.replies != s.replies {
      OneMoreReply(s, s', s'.replies[|s.replies|]);
    }
  }

  lemma {:induction false} RunLogsReplies<T, A, Op>(decide: (Request<Op>, Option<T>) -> Decision<T, A>,
                                                    steps: seq<Step<Op>>)
    ensures RepliesAreLogged(Run(decide, steps))
  {
    if steps != [] {
      RunLogsReplies(decide, steps[..|steps| - 1]);
      NextLogsReplies(decide, Run(decide, steps[..|steps| - 1]), steps[|steps| - 1]);
    }
  }

  /**
    The refinement. After any interleaving, the documents are those the locked store has after
    running the logged requests one at a time in log order, so no committed update is lost; every
    logged request was answered, and wrote or not, as the locked store does at its place, which is
    no earlier than its GET; and every answer a caller got is that of the request logged last when
    it was sent.
  */
  lemma FirestoreRefinesLockedStore<T, A, Op>(decide: (Request<Op>, Option<T>) -> Decision<T, A>, steps: seq<Step<Op>>)
    ensures
      var s := Run(decide, steps);
      && Values(s.docs) == Replay(decide, Requests(s.log))
      && LogIsSequential(decide, s.log)
      && RepliesAreLogged(s)
  {
    RunKeepsInv(decide, steps);
    RunLogsReplies(decide, steps);
  }

  /**
    What a commit does: when nobody wrote the document since the GET, it takes the value computed then
    and the request is logged, whether or not the reply arrives; otherwise nothing is written.
  */
  lemma CommitEffect<T, A, Op>(decide: (Request<Op>, Option<T>) -> Decision<T, A>, steps: seq<Step<Op>>, client: nat,
                               time: nat, delivered: bool)
    requires client in Run(decide, steps).pending && time !in Run(decide, steps).usedTimes
    ensures
      var s := Run(decide, steps);
      var s' := Run(decide, steps + [Commit(client, time, delivered)]);
      var p := s.pending[client];
      var reply := s'.replies[|s'.replies| - 1];
      && |s'.replies| == |s.replies| + 1 && reply.client == client && reply.request == p.request
      && client !in s'.pending
      && if exists i :: p.readAt <= i < |s.log| && s.log[i].wrote && s.log[i].request.name == p.request.name then
           reply.answer == None && s'.docs == s.docs && s'.log == s.log
         else
           && reply.answer == (if delivered then Some(p.answer) else None)
           && s'.docs == s.docs[p.request.name := Document(p.value, time)]
           && s'.log == s.log + [Entry(client, p.request, p.answer, p.readAt, true)]
  {
    var s := Run(decide, steps);
    RunKeepsInv(decide, steps);
    assert PendingOk(decide, s, s.pending[client]);
    assert (steps + [Commit(client, time, delivered)])[..|steps|] == steps;
  }

  /**
    What a GET does: a decision that writes nothing is answered and logged at once; another waits, with
    what was decided on the document as it is.
  */
  lemma GetEffect<T, A, Op>(decide: (Request<Op>, Option<T>) -> Decision<T, A>, steps: seq<Step<Op>>, client: nat,
                            request: Request<Op>)
    requires client !in Run(decide, steps).pending
    ensures
      var s := Run(decide, steps);
      var s' := Run(decide, steps + [Get(client, request)]);
      var d := decide(request, Lookup(Values(s.docs), request.name));
      && s'.docs == s.docs
      && if d.Keep? then
           && s'.pending == s.pending && s'.log == s.log + [Entry(client, request, d.answer, |s.log|, false)]
           && s'.replies == s.replies + [Reply(client, request, Some(d.answer), |s.log| + 1)]
         else
           && s'.log == s.log && s'.replies == s.replies && client in s'.pending
           && s'.pending[client].request == request && s'.pending[client].readAt == |s.log|
           && s'.pending[client].value == d.value && s'.pending[client].answer == d.answer
  {
    LookupValues(Run(decide, steps).docs, request.name);
    assert (steps + [Get(client, request)])[..|steps|] == steps;
  }

  /** A request that is given up writes nothing, is told of an error, and no longer waits. */
  lemma AbandonEffect<T, A, Op>(decide: (Request<Op>, Option<T>) -> Decision<T, A>, steps: seq<Step<Op>>, client: nat)
    requires client in Run(decide, steps).pending
    ensures
      var s := Run(decide, steps);
      var s' := Run(decide, steps + [Abandon(client)]);
      && s'.docs == s.docs && s'.log == s.log && s'.pending == s.pending - {client}
      && s'.replies == s.replies + [Reply(client, s.pending[client].request, None, |s.log|)]
  {
    assert (steps + [Abandon(client)])[..|steps|] == steps;
  }

  /**
    A commit is refused exactly when another request wrote the same document between this one's GET
    and its commit.
  */
  lemma CommitRefusedIffOvertaken<T, A, Op>(decide: (Request<Op>, Option<T>) -> Decision<T, A>, steps: seq<Step<Op>>,
                                            client: nat, time: nat)
    requires client in Run(decide, steps).pending && time !in Run(decide, steps).usedTimes
    ensures
      var s := Run(decide, steps);
      var s' := Run(decide, steps + [Commit(client, time, true)]);
      var p := s.pending[client];
      s'.replies[|s'.replies| - 1].answer ==
      if exists i :: p.readAt <= i < |s.log| && s.log[i].wrote && s.log[i].request.name == p.request.name
      then None else Some(p.answer)
  {
    var s := Run(decide, steps);
    RunKeepsInv(decide, steps);
    assert PendingOk(decide, s, s.pending[client]);
    assert (steps + [Commit(client, time, true)])[..|steps|] == steps;
  }
}
