/**
  Canonical JSON: objects with their members sorted by name at every depth, and no floating point
  numbers. Values are as serde_json holds them, with member names unique within an object.
*/
module CanonicalJson {
  import opened Wrappers
  import opened Keys
  import opened Sorting
  import opened Utf8

  datatype Json =
    | Null
    | Bool(flag: bool)
    | Int(number: int)
    | Float(float: real)
    | Str(text: string)
    | Arr(items: seq<Json>)
    | Obj(members: seq<Member>)

  datatype Member = Member(name: string, value: Json)

  /** The order the canonicalizer sorts by: string comparison, which compares UTF-8 bytes. */
  predicate BytesBefore(a: Member, b: Member) {
    BytesLess(Encode(a.name), Encode(b.name))
  }

  /** The order the protocol demands: code point order. */
  predicate NameBefore(a: Member, b: Member) {
    TextLess(a.name, b.name)
  }

  lemma SortsByCodePoint(members: seq<Member>)
    ensures Sort(members, BytesBefore) == Sort(members, NameBefore)
  {
    forall a, b
      ensures BytesBefore(a, b) <==> NameBefore(a, b)
    {
      ByteOrderIsCodePointOrder(a.name, b.name);
    }
    SortAgrees(members, BytesBefore, NameBefore);
  }

  // ---------- sizes, for termination ----------

  function Size(v: Json): nat {
    match v
    case Arr(items) => 1 + SizeOfItems(items)
    case Obj(members) => 1 + SizeOfMembers(members)
    case _ => 1
  }

  function SizeOfItems(items: seq<Json>): nat {
    if items == [] then 0 else 1 + Size(items[0]) + SizeOfItems(items[1..])
  }

  function SizeOfMembers(members: seq<Member>): nat {
    if members == [] then 0 else 1 + Size(members[0].value) + SizeOfMembers(members[1..])
  }

  lemma {:induction false} InsertSize(m: Member, members: seq<Member>)
    ensures SizeOfMembers(Insert(m, members, BytesBefore)) == 1 + Size(m.value) + SizeOfMembers(members)
  {
    if members != [] && BytesBefore(members[0], m) {
      InsertSize(m, members[1..]);
    } else {
      assert ([m] + members)[1..] == members;
    }
  }

  lemma {:induction false} SortSize(members: seq<Member>)
    ensures SizeOfMembers(Sort(members, BytesBefore)) == SizeOfMembers(members)
  {
    if members != [] {
      SortSize(members[1..]);
      InsertSize(members[0], Sort(members[1..], BytesBefore));
    }
  }

  // ---------- canonicalizing ----------

  /** The canonical form; None for a value with a floating point number in it. */
  function Canonicalize(v: Json): Option<Json>
    decreases Size(v)
  {
    match v
    case Float(_) => None
    case Arr(items) =>
      (match CanonicalizeItems(items)
       case None => None
       case Some(canonical) => Some(Arr(canonical)))
    case Obj(members) =>
      SortSize(members);
      (match CanonicalizeMembers(Sort(members, BytesBefore))
       case None => None
       case Some(canonical) => Some(Obj(canonical)))
    case _ => Some(v)
  }

  function CanonicalizeItems(items: seq<Json>): (r: Option<seq<Json>>)
    ensures r.Some? ==> |r.value| == |items|
    decreases SizeOfItems(items)
  {
    if items == [] then Some([])
    else
      var first, rest := Canonicalize(items[0]), CanonicalizeItems(items[1..]);
      if first.Some? && rest.Some? then Some([first.value] + rest.value) else None
  }

  function CanonicalizeMembers(members: seq<Member>): (r: Option<seq<Member>>)
    ensures r.Some? ==> |r.value| == |members|
    ensures r.Some? ==> forall i :: 0 <= i < |members| ==> r.value[i].name == members[i].name
    decreases SizeOfMembers(members)
  {
    if members == [] then Some([])
    else
      var first, rest := Canonicalize(members[0].value), CanonicalizeMembers(members[1..]);
      if first.Some? && rest.Some? then Some([Member(members[0].name, first.value)] + rest.value) else None
  }

  // ---------- what it means ----------

  /** A floating point number occurs at some depth. */
  ghost predicate HasFloat(v: Json) {
    match v
    case Float(_) => true
    case Arr(items) => exists i :: 0 <= i < |items| && HasFloat(items[i])
    case Obj(members) => exists i :: 0 <= i < |members| && HasFloat(members[i].value)
    case _ => false
  }

  function Names(members: seq<Member>): set<string> {
    set i | 0 <= i < |members| :: members[i].name
  }

  /** No object, at any depth, has two members of the same name. */
  ghost predicate WellFormed(v: Json) {
    match v
    case Arr(items) => forall i :: 0 <= i < |items| ==> WellFormed(items[i])
    case Obj(members) =>
      && (forall i, j :: 0 <= i < j < |members| ==> members[i].name != members[j].name)
      && (forall i :: 0 <= i < |members| ==> WellFormed(members[i].value))
    case _ => true
  }

  /** The members of every object, at any depth, strictly increase by name. */
  ghost predicate SortedDeep(v: Json) {
    match v
    case Arr(items) => forall i :: 0 <= i < |items| ==> SortedDeep(items[i])
    case Obj(members) => Strict(members, NameBefore) && forall i :: 0 <= i < |members| ==> SortedDeep(members[i].value)
    case _ => true
  }

  /**
    The values differ at most in the order of members, at any depth: objects have the same names, and
    their members of the same name differ at most in that.
  */
  ghost predicate SameUpToOrder(v: Json, w: Json) {
    match v
    case Arr(items) =>
      w.Arr? && |items| == |w.items| && forall i :: 0 <= i < |items| ==> SameUpToOrder(items[i], w.items[i])
    case Obj(members) =>
      && w.Obj? && Names(members) == Names(w.members)
      && forall i, j :: 0 <= i < |members| && 0 <= j < |w.members| && members[i].name == w.members[j].name ==>
           SameUpToOrder(members[i].value, w.members[j].value)
    case _ => v == w
  }

  // ---------- success ----------

  lemma {:induction false} ItemsSucceed(items: seq<Json>)
    ensures CanonicalizeItems(items).Some? <==> forall i :: 0 <= i < |items| ==> Canonicalize(items[i]).Some?
    ensures CanonicalizeItems(items).Some? ==>
              forall i :: 0 <= i < |items| ==> CanonicalizeItems(items).value[i] == Canonicalize(items[i]).value
  {
    if items != [] {
      ItemsSucceed(items[1..]);
      assert items == [items[0]] + items[1..];
    }
  }

  lemma {:induction false} MembersSucceed(members: seq<Member>)
    ensures CanonicalizeMembers(members).Some?
            <==> forall i :: 0 <= i < |members| ==> Canonicalize(members[i].value).Some?
    ensures CanonicalizeMembers(members).Some? ==>
              forall i :: 0 <= i < |members| ==>
                CanonicalizeMembers(members).value[i] == Member(members[i].name, Canonicalize(members[i].value).value)
  {
    if members != [] {
      MembersSucceed(members[1..]);
      assert members == [members[0]] + members[1..];
    }
  }

  lemma SameElementsSucceed(a: seq<Member>, b: seq<Member>)
    requires forall m :: m in a ==> m in b
    requires forall i :: 0 <= i < |b| ==> Canonicalize(b[i].value).Some?
    ensures forall i :: 0 <= i < |a| ==> Canonicalize(a[i].value).Some?
  {
    forall i | 0 <= i < |a|
      ensures Canonicalize(a[i].value).Some?
    {
      assert a[i] in b;
    }
  }

  lemma ObjectSucceeds(members: seq<Member>)
    ensures Canonicalize(Obj(members)).Some?
            <==> forall i :: 0 <= i < |members| ==> Canonicalize(members[i].value).Some?
  {
    var sorted := Sort(members, BytesBefore);
    SortsByCodePoint(members);
    SortElements(members, NameBefore);
    MembersSucceed(sorted);
    if Canonicalize(Obj(members)).Some? {
      SameElementsSucceed(members, sorted);
    }
    if forall i :: 0 <= i < |members| ==> Canonicalize(members[i].value).Some? {
      SameElementsSucceed(sorted, members);
    }
  }

  /** Canonicalizing succeeds iff no floating point number occurs at any depth. */
  lemma {:induction false} SucceedsIffNoFloat(v: Json)
    ensures Canonicalize(v).Some? <==> !HasFloat(v)
    decreases v
  {
    match v
    case Arr(items) =>
      ItemsSucceed(items);
      forall i | 0 <= i < |items|
        ensures Canonicalize(items[i]).Some? <==> !HasFloat(items[i])
      {
        SucceedsIffNoFloat(items[i]);
      }
    case Obj(members) =>
      ObjectSucceeds(members);
      forall i | 0 <= i < |members|
        ensures Canonicalize(members[i].value).Some? <==> !HasFloat(members[i].value)
      {
        SucceedsIffNoFloat(members[i].value);
      }
    case _ =>
  }

  // ---------- the canonical form ----------

  /** Every canonical member comes from a member of the same name. */
  ghost predicate ComesFrom(c: Member, members: seq<Member>) {
    exists i :: 0 <= i < |members| && members[i].name == c.name && Canonicalize(members[i].value) == Some(c.value)
  }

  /** The members of a canonical form: sorted, with the same names, and each canonicalized. */
  lemma CanonicalMembers(members: seq<Member>)
    requires Canonicalize(Obj(members)).Some?
    requires forall i, j :: 0 <= i < j < |members| ==> members[i].name != members[j].name
    ensures
      var canonical := Canonicalize(Obj(members)).value;
      && canonical.Obj? && Strict(canonical.members, NameBefore)
      && Names(canonical.members) == Names(members)
      && forall j :: 0 <= j < |canonical.members| ==> ComesFrom(canonical.members[j], members)
  {
    var sorted := Sort(members, BytesBefore);
    SortsByCodePoint(members);
    var canonical := Canonicalize(Obj(members)).value.members;
    MembersSucceed(sorted);
    SortElements(members, NameBefore);
    assert Strict(sorted, NameBefore) by {
      TextOrder();
      SortStrict(members, NameBefore);
    }
    SameNames(sorted, members);
    SameNames(members, sorted);
    assert Names(canonical) == Names(sorted);
    forall j | 0 <= j < |canonical|
      ensures ComesFrom(canonical[j], members)
    {
      assert sorted[j] in members;
    }
  }

  lemma SameNames(a: seq<Member>, b: seq<Member>)
    requires forall m :: m in a ==> m in b
    ensures Names(a) <= Names(b)
  {
    forall name | name in Names(a)
      ensures name in Names(b)
    {
      var i :| 0 <= i < |a| && a[i].name == name;
      assert a[i] in b;
    }
  }

  /** The form is sorted at every depth, has no float, and is the value up to member order. */
  ghost predicate IsFormOf(c: Json, v: Json) {
    SortedDeep(c) && !HasFloat(c) && SameUpToOrder(v, c)
  }

  lemma ArrayForm(items: seq<Json>)
    requires Canonicalize(Arr(items)).Some?
    requires forall i :: 0 <= i < |items| && Canonicalize(items[i]).Some? ==>
               IsFormOf(Canonicalize(items[i]).value, items[i])
    ensures IsFormOf(Canonicalize(Arr(items)).value, Arr(items))
  {
    ItemsSucceed(items);
  }

  lemma ObjectForm(members: seq<Member>)
    requires Canonicalize(Obj(members)).Some?
    requires forall i, j :: 0 <= i < j < |members| ==> members[i].name != members[j].name
    requires forall i :: 0 <= i < |members| && Canonicalize(members[i].value).Some? ==>
               IsFormOf(Canonicalize(members[i].value).value, members[i].value)
    ensures IsFormOf(Canonicalize(Obj(members)).value, Obj(members))
  {
    var canonical := Canonicalize(Obj(members)).value.members;
    CanonicalMembers(members);
    forall j | 0 <= j < |canonical|
      ensures SortedDeep(canonical[j].value) && !HasFloat(canonical[j].value)
      ensures forall i :: 0 <= i < |members| && members[i].name == canonical[j].name ==>
                SameUpToOrder(members[i].value, canonical[j].value)
    {
      assert ComesFrom(canonical[j], members);
      var k :| 0 <= k < |members| && members[k].name == canonical[j].name
               && Canonicalize(members[k].value) == Some(canonical[j].value);
      assert IsFormOf(canonical[j].value, members[k].value);
    }
  }

  /** The canonical form is sorted at every depth, has no float, and is the value up to member order. */
  lemma {:induction false} CanonicalForm(v: Json)
    requires WellFormed(v) && Canonicalize(v).Some?
    ensures IsFormOf(Canonicalize(v).value, v)
    decreases v
  {
    match v
    case Arr(items) =>
      forall i | 0 <= i < |items| && Canonicalize(items[i]).Some?
        ensures IsFormOf(Canonicalize(items[i]).value, items[i])
      {
        CanonicalForm(items[i]);
      }
      ArrayForm(items);
    case Obj(members) =>
      forall i | 0 <= i < |members| && Canonicalize(members[i].value).Some?
        ensures IsFormOf(Canonicalize(members[i].value).value, members[i].value)
      {
        CanonicalForm(members[i].value);
      }
      ObjectForm(members);
    case _ =>
  }

  // ---------- uniqueness ----------

  lemma {:induction false} SameSymmetric(v: Json, w: Json)
    requires SameUpToOrder(v, w)
    ensures SameUpToOrder(w, v)
    decreases v
  {
    match v
    case Arr(items) =>
      forall i | 0 <= i < |items|
        ensures SameUpToOrder(w.items[i], items[i])
      {
        SameSymmetric(items[i], w.items[i]);
      }
    case Obj(members) =>
      forall i, j | 0 <= i < |members| && 0 <= j < |w.members| && members[i].name == w.members[j].name
        ensures SameUpToOrder(w.members[j].value, members[i].value)
      {
        SameSymmetric(members[i].value, w.members[j].value);
      }
    case _ =>
  }

  lemma {:induction false} SameTransitive(u: Json, v: Json, w: Json)
    requires SameUpToOrder(u, v) && SameUpToOrder(v, w)
    ensures SameUpToOrder(u, w)
    decreases u
  {
    match u
    case Arr(items) =>
      forall i | 0 <= i < |items|
        ensures SameUpToOrder(items[i], w.items[i])
      {
        SameTransitive(items[i], v.items[i], w.items[i]);
      }
    case Obj(members) =>
      forall i, k | 0 <= i < |members| && 0 <= k < |w.members| && members[i].name == w.members[k].name
        ensures SameUpToOrder(members[i].value, w.members[k].value)
      {
        assert members[i].name in Names(v.members);
        var j :| 0 <= j < |v.members| && v.members[j].name == members[i].name;
        SameTransitive(members[i].value, v.members[j].value, w.members[k].value);
      }
    case _ =>
  }

  lemma SameMembersContained(a: seq<Member>, b: seq<Member>)
    requires Names(a) <= Names(b)
    requires forall i, j :: 0 <= i < |a| && 0 <= j < |b| && a[i].name == b[j].name ==> a[i] == b[j]
    ensures forall m :: m in a ==> m in b
  {
    forall m | m in a
      ensures m in b
    {
      var i :| 0 <= i < |a| && a[i] == m;
      assert m.name in Names(b);
      var j :| 0 <= j < |b| && b[j].name == m.name;
    }
  }

  /** Two values sorted at every depth that are the same up to member order are equal. */
  lemma {:induction false} SortedSameEqual(v: Json, w: Json)
    requires SortedDeep(v) && SortedDeep(w) && SameUpToOrder(v, w)
    ensures v == w
    decreases v
  {
    match v
    case Arr(items) =>
      forall i | 0 <= i < |items|
        ensures items[i] == w.items[i]
      {
        SortedSameEqual(items[i], w.items[i]);
      }
    case Obj(members) =>
      forall i, j | 0 <= i < |members| && 0 <= j < |w.members| && members[i].name == w.members[j].name
        ensures members[i] == w.members[j]
      {
        SortedSameEqual(members[i].value, w.members[j].value);
      }
      SameMembersContained(members, w.members);
      SameMembersContained(w.members, members);
      TextOrder();
      StrictUnique(members, w.members, NameBefore);
    case _ =>
  }

  lemma {:induction false} SortedIsWellFormed(v: Json)
    requires SortedDeep(v)
    ensures WellFormed(v)
    decreases v
  {
    match v
    case Arr(items) =>
      forall i | 0 <= i < |items|
        ensures WellFormed(items[i])
      {
        SortedIsWellFormed(items[i]);
      }
    case Obj(members) =>
      forall i, j | 0 <= i < j < |members|
        ensures members[i].name != members[j].name
      {
        assert NameBefore(members[i], members[j]);
        TextTrichotomy(members[i].name, members[j].name);
      }
      forall i | 0 <= i < |members|
        ensures WellFormed(members[i].value)
      {
        SortedIsWellFormed(members[i].value);
      }
    case _ =>
  }

  /** Canonicalizing twice is canonicalizing once. */
  lemma CanonicalizeIsIdempotent(v: Json)
    requires WellFormed(v) && Canonicalize(v).Some?
    ensures Canonicalize(Canonicalize(v).value) == Canonicalize(v)
  {
    var c := Canonicalize(v).value;
    CanonicalForm(v);
    SucceedsIffNoFloat(c);
    SortedIsWellFormed(c);
    CanonicalForm(c);
    SortedSameEqual(c, Canonicalize(c).value);
  }

  /** Two values without floats have the same canonical form iff they differ at most in member order. */
  lemma CanonicalFormsAgreeIff(v: Json, w: Json)
    requires WellFormed(v) && WellFormed(w) && !HasFloat(v) && !HasFloat(w)
    ensures Canonicalize(v) == Canonicalize(w) <==> SameUpToOrder(v, w)
  {
    SucceedsIffNoFloat(v);
    SucceedsIffNoFloat(w);
    CanonicalForm(v);
    CanonicalForm(w);
    var c, d := Canonicalize(v).value, Canonicalize(w).value;
    SameSymmetric(w, d);
    SameSymmetric(v, c);
    if c == d {
      SameTransitive(v, c, w);
    }
    if SameUpToOrder(v, w) {
      SameTransitive(c, v, w);
      SameTransitive(c, w, d);
      SortedSameEqual(c, d);
    }
  }
}
