/**
  Lists of named values, the shape in which the file stores keep their data, read as maps from names
  to values. The functions take the first value with a name, as the stores' lookups do.
*/
module NamedList {
  import opened Wrappers
  import opened CommitProtocol

  ghost predicate UniqueNames<T>(items: seq<T>, name: T -> string) {
    forall i, j :: 0 <= i < j < |items| ==> name(items[i]) != name(items[j])
  }

  function ByName<T>(items: seq<T>, name: T -> string): map<string, T> {
    if items == [] then map[] else ByName(items[1..], name)[name(items[0]) := items[0]]
  }

  /** The first value with the name; the length of the list when there is none. */
  function IndexOf<T>(items: seq<T>, name: T -> string, n: string): (i: nat)
    ensures i <= |items|
    ensures i < |items| ==> name(items[i]) == n
    ensures forall j :: 0 <= j < i ==> name(items[j]) != n
  {
    if items == [] || name(items[0]) == n then 0 else 1 + IndexOf(items[1..], name, n)
  }

  lemma {:induction false} ByNameOfIndex<T>(items: seq<T>, name: T -> string, n: string)
    ensures var i := IndexOf(items, name, n);
            Lookup(ByName(items, name), n) == if i < |items| then Some(items[i]) else None
  {
    if items != [] {
      ByNameOfIndex(items[1..], name, n);
    }
  }

  /** With unique names, the list and the map hold the same values. */
  lemma ByNameElements<T>(items: seq<T>, name: T -> string)
    requires UniqueNames(items, name)
    ensures forall i :: 0 <= i < |items| ==> Lookup(ByName(items, name), name(items[i])) == Some(items[i])
    ensures forall n :: n in ByName(items, name) ==>
              exists i :: 0 <= i < |items| && items[i] == ByName(items, name)[n] && name(items[i]) == n
  {
    forall i | 0 <= i < |items|
      ensures Lookup(ByName(items, name), name(items[i])) == Some(items[i])
    {
      ByNameOfIndex(items, name, name(items[i]));
      assert IndexOf(items, name, name(items[i])) <= i;
    }
    forall n | n in ByName(items, name)
      ensures exists i :: 0 <= i < |items| && items[i] == ByName(items, name)[n] && name(items[i]) == n
    {
      ByNameOfIndex(items, name, n);
      assert items[IndexOf(items, name, n)] == ByName(items, name)[n];
    }
  }

  /** Overwriting the first value with a name in place is an update of the map. */
  lemma {:induction false} ByNameUpdate<T>(items: seq<T>, name: T -> string, i: nat, item: T)
    requires i == IndexOf(items, name, name(item)) < |items|
    ensures ByName(items[i := item], name) == ByName(items, name)[name(item) := item]
    ensures UniqueNames(items, name) ==> UniqueNames(items[i := item], name)
  {
    if i == 0 {
      assert items[i := item][1..] == items[1..];
    } else {
      ByNameUpdate(items[1..], name, i - 1, item);
      assert items[i := item][1..] == items[1..][i - 1 := item];
    }
  }

  /** Appending a value under a new name is an update of the map. */
  lemma {:induction false} ByNameAppend<T>(items: seq<T>, name: T -> string, item: T)
    requires IndexOf(items, name, name(item)) == |items|
    ensures ByName(items + [item], name) == ByName(items, name)[name(item) := item]
    ensures UniqueNames(items, name) ==> UniqueNames(items + [item], name)
  {
    if items != [] {
      ByNameAppend(items[1..], name, item);
      assert (items + [item])[1..] == items[1..] + [item];
    }
  }
}
