/**
  The last-writer-wins merge of one list into another, as the memory merge does it for peers and for
  interactions: each remote value replaces the first local value with its id if it is strictly
  newer, and is appended if there is none.
*/
module LastWriterWins {
  import opened Wrappers
  import opened NamedList

  /** The merge of one value; `time` is what newer and older refer to. */
  function MergeOne<T>(list: seq<T>, r: T, id: T -> string, time: T -> int): seq<T> {
    var i := IndexOf(list, id, id(r));
    if i == |list| then list + [r]
    else if time(r) > time(list[i]) then list[i := r]
    else list
  }

  predicate OneChanges<T>(list: seq<T>, r: T, id: T -> string, time: T -> int) {
    var i := IndexOf(list, id, id(r));
    i == |list| || time(r) > time(list[i])
  }

  /** The merge of a list of values, in order. */
  function MergeAll<T>(list: seq<T>, remote: seq<T>, id: T -> string, time: T -> int): seq<T> {
    if remote == [] then list
    else
      var n := |remote| - 1;
      MergeOne(MergeAll(list, remote[..n], id, time), remote[n], id, time)
  }

  /** Some value of the remote list replaced or added something. */
  predicate AnyChanges<T>(list: seq<T>, remote: seq<T>, id: T -> string, time: T -> int) {
    remote != [] &&
    var n := |remote| - 1;
    AnyChanges(list, remote[..n], id, time) || OneChanges(MergeAll(list, remote[..n], id, time), remote[n], id, time)
  }

  /** The map holds a value with this id that is at least as new. */
  predicate Covers<T>(m: map<string, T>, r: T, id: T -> string, time: T -> int) {
    id(r) in m && time(r) <= time(m[id(r)])
  }

  /** No value of `older` was lost or replaced by an older one. */
  ghost predicate AtLeastAsNew<T>(m: map<string, T>, older: map<string, T>, time: T -> int) {
    forall n :: n in older ==> n in m && time(older[n]) <= time(m[n])
  }

  /** Something in the map is new, or newer than before. */
  ghost predicate SomethingNewer<T>(m: map<string, T>, older: map<string, T>, time: T -> int) {
    exists n :: n in m && (n !in older || time(older[n]) < time(m[n]))
  }

  /** The merge of one value, read as a map. */
  lemma MergeOneByName<T>(list: seq<T>, r: T, id: T -> string, time: T -> int)
    ensures
      var m := ByName(list, id);
      && ByName(MergeOne(list, r, id, time), id) == (if Covers(m, r, id, time) then m else m[id(r) := r])
      && (OneChanges(list, r, id, time) <==> !Covers(m, r, id, time))
      && (!OneChanges(list, r, id, time) ==> MergeOne(list, r, id, time) == list)
      && (UniqueNames(list, id) ==> UniqueNames(MergeOne(list, r, id, time), id))
  {
    var i := IndexOf(list, id, id(r));
    ByNameOfIndex(list, id, id(r));
    if i == |list| {
      ByNameAppend(list, id, r);
    } else if time(r) > time(list[i]) {
      ByNameUpdate(list, id, i, r);
    }
  }

  /**
    What merging a list does: the result covers every remote value, is nowhere older than before, and
    the change flag says exactly whether something became newer; without a change the list is as it was.
  */
  lemma {:induction false} MergeAllEffect<T>(list: seq<T>, remote: seq<T>, id: T -> string, time: T -> int)
    ensures
      var before, after := ByName(list, id), ByName(MergeAll(list, remote, id, time), id);
      && (forall i :: 0 <= i < |remote| ==> Covers(after, remote[i], id, time))
      && AtLeastAsNew(after, before, time)
      && (AnyChanges(list, remote, id, time) <==> SomethingNewer(after, before, time))
    ensures !AnyChanges(list, remote, id, time) ==> MergeAll(list, remote, id, time) == list
    ensures UniqueNames(list, id) ==> UniqueNames(MergeAll(list, remote, id, time), id)
  {
    if remote != [] {
      var n := |remote| - 1;
      var r := remote[n];
      MergeAllEffect(list, remote[..n], id, time);
      MergeOneByName(MergeAll(list, remote[..n], id, time), r, id, time);
      var before := ByName(list, id);
      var middle := ByName(MergeAll(list, remote[..n], id, time), id);
      var after := ByName(MergeAll(list, remote, id, time), id);
      forall i | 0 <= i < |remote|
        ensures Covers(after, remote[i], id, time)
      {
        if i < n {
          assert Covers(middle, remote[..n][i], id, time);
        }
      }
      if SomethingNewer(middle, before, time) {
        var k :| k in middle && (k !in before || time(before[k]) < time(middle[k]));
        assert k in after && (k !in before || time(before[k]) < time(after[k]));
      }
      if !Covers(middle, r, id, time) {
        assert id(r) in after && (id(r) !in before || time(before[id(r)]) < time(after[id(r)]));
      }
    }
  }

  /** A list that covers every remote value is not changed by merging them. */
  lemma {:induction false} MergeCovered<T>(list: seq<T>, remote: seq<T>, id: T -> string, time: T -> int)
    requires forall i :: 0 <= i < |remote| ==> Covers(ByName(list, id), remote[i], id, time)
    ensures MergeAll(list, remote, id, time) == list && !AnyChanges(list, remote, id, time)
  {
    if remote != [] {
      MergeCovered(list, remote[..|remote| - 1], id, time);
      MergeOneByName(list, remote[|remote| - 1], id, time);
    }
  }

  lemma {:induction false} MergeAllConcat<T>(list: seq<T>, a: seq<T>, b: seq<T>, id: T -> string, time: T -> int)
    ensures MergeAll(list, a + b, id, time) == MergeAll(MergeAll(list, a, id, time), b, id, time)
  {
    if b == [] {
      assert a + b == a;
    } else {
      var n := |b| - 1;
      assert (a + b)[..|a + b| - 1] == a + b[..n];
      MergeAllConcat(list, a, b[..n], id, time);
    }
  }

  /** Everything in the merged map was there before or comes from the remote list. */
  lemma {:induction false} MergeAllOrigin<T>(list: seq<T>, remote: seq<T>, id: T -> string, time: T -> int, n: string)
    requires n in ByName(MergeAll(list, remote, id, time), id)
    ensures
      var x := ByName(MergeAll(list, remote, id, time), id)[n];
      (n in ByName(list, id) && x == ByName(list, id)[n]) || (x in remote && id(x) == n)
  {
    if remote != [] {
      var k := |remote| - 1;
      MergeOneByName(MergeAll(list, remote[..k], id, time), remote[k], id, time);
      if n in ByName(MergeAll(list, remote[..k], id, time), id) {
        MergeAllOrigin(list, remote[..k], id, time, n);
      }
    }
  }

  /** Values with the same id and time are the same value. */
  ghost predicate TimesNameValues<T>(list: seq<T>, remote: seq<T>, id: T -> string, time: T -> int) {
    forall x, y :: x in list + remote && y in list + remote && id(x) == id(y) && time(x) == time(y) ==> x == y
  }

  /**
    When equal (id, time) pairs carry equal values, the merged map depends only on the start and on
    which values are merged, not on their order or repeats.
  */
  lemma MergeOrderIrrelevant<T>(list: seq<T>, a: seq<T>, b: seq<T>, id: T -> string, time: T -> int)
    requires TimesNameValues(list, a, id, time)
    requires forall x :: x in a <==> x in b
    ensures ByName(MergeAll(list, a, id, time), id) == ByName(MergeAll(list, b, id, time), id)
  {
    var m, w := ByName(MergeAll(list, a, id, time), id), ByName(MergeAll(list, b, id, time), id);
    MergeNoNewer(list, a, b, id, time);
    MergeNoNewer(list, b, a, id, time);
    forall n | n in m
      ensures n in w && m[n] == w[n]
    {
      MergedIsMember(list, a, id, time, n);
      MergedIsMember(list, b, id, time, n);
    }
  }

  /** A merged value is one of the values merged. */
  lemma MergedIsMember<T>(list: seq<T>, remote: seq<T>, id: T -> string, time: T -> int, n: string)
    ensures n in ByName(MergeAll(list, remote, id, time), id) ==>
      var x := ByName(MergeAll(list, remote, id, time), id)[n];
      x in list + remote && id(x) == n
  {
    if n in ByName(MergeAll(list, remote, id, time), id) {
      MergeAllOrigin(list, remote, id, time, n);
      ByNameOfIndex(list, id, n);
    }
  }

  /** Merging the same values in another order gives nothing newer. */
  lemma MergeNoNewer<T>(list: seq<T>, a: seq<T>, b: seq<T>, id: T -> string, time: T -> int)
    requires forall x :: x in a ==> x in b
    ensures AtLeastAsNew(ByName(MergeAll(list, b, id, time), id), ByName(MergeAll(list, a, id, time), id), time)
  {
    var m, w := ByName(MergeAll(list, a, id, time), id), ByName(MergeAll(list, b, id, time), id);
    MergeAllEffect(list, b, id, time);
    forall n | n in m
      ensures n in w && time(m[n]) <= time(w[n])
    {
      MergeAllOrigin(list, a, id, time, n);
      if m[n] in a && id(m[n]) == n {
        var i :| 0 <= i < |b| && b[i] == m[n];
        assert Covers(w, b[i], id, time);
      }
    }
  }
}
