/**
  The orders the relay sorts and resumes by: strings by code point, and (time, id) keys.
*/
module Keys {

  /** Lexicographic order of strings by code point. */
  predicate TextLess(s: string, t: string) {
    t != [] && (s == [] || s[0] < t[0] || (s[0] == t[0] && TextLess(s[1..], t[1..])))
  }

  /** What records, events, generations and cursors are ordered by: a time, then an id. */
  datatype Key = Key(time: int, id: string)

  predicate KeyLess(a: Key, b: Key) {
    a.time < b.time || (a.time == b.time && TextLess(a.id, b.id))
  }

  /** The texts agree before position i, and there the first has a smaller character, or none. */
  ghost predicate SmallerAt(s: string, t: string, i: int) {
    && 0 <= i <= |s| && i < |t| && (forall k :: 0 <= k < i ==> s[k] == t[k])
    && (i == |s| || s[i] as int < t[i] as int)
  }

  /** A text comes before another iff it is smaller at their first difference; a prefix is smaller. */
  lemma {:induction false} TextLessIff(s: string, t: string)
    ensures TextLess(s, t) <==> exists i :: SmallerAt(s, t, i)
  {
    if t != [] {
      if s == [] || s[0] < t[0] {
        assert SmallerAt(s, t, 0);
      } else if s[0] == t[0] {
        TextLessIff(s[1..], t[1..]);
        if TextLess(s, t) {
          var i :| SmallerAt(s[1..], t[1..], i);
          assert forall k :: 0 <= k < i + 1 ==> k == 0 || s[1..][k - 1] == s[k] == t[k];
          assert SmallerAt(s, t, i + 1);
        }
        forall i | SmallerAt(s, t, i)
          ensures SmallerAt(s[1..], t[1..], i - 1)
        {
        }
      }
    }
  }

  lemma {:induction false} TextTrichotomy(s: string, t: string)
    ensures TextLess(s, t) || s == t || TextLess(t, s)
    ensures !(TextLess(s, t) && TextLess(t, s))
    ensures !TextLess(s, s)
  {
    if s != [] && t != [] {
      TextTrichotomy(s[1..], t[1..]);
      assert s == [s[0]] + s[1..] && t == [t[0]] + t[1..];
    }
    if s != [] {
      TextTrichotomy(s[1..], s[1..]);
    }
  }

  lemma {:induction false} TextTransitive(s: string, t: string, u: string)
    requires TextLess(s, t) && TextLess(t, u)
    ensures TextLess(s, u)
  {
    if s != [] && s[0] == t[0] == u[0] {
      TextTransitive(s[1..], t[1..], u[1..]);
    }
  }

  lemma TextOrder()
    ensures forall s, t :: TextLess(s, t) || s == t || TextLess(t, s)
    ensures forall s, t :: TextLess(s, t) ==> !TextLess(t, s) && s != t
    ensures forall s, t, u :: TextLess(s, t) && TextLess(t, u) ==> TextLess(s, u)
  {
    forall s, t
      ensures TextLess(s, t) || s == t || TextLess(t, s)
      ensures TextLess(s, t) ==> !TextLess(t, s) && s != t
    {
      TextTrichotomy(s, t);
    }
    forall s, t, u | TextLess(s, t) && TextLess(t, u)
      ensures TextLess(s, u)
    {
      TextTransitive(s, t, u);
    }
  }

  /** Keys are strictly and totally ordered. */
  lemma KeyOrder()
    ensures forall a, b :: KeyLess(a, b) || a == b || KeyLess(b, a)
    ensures forall a, b :: KeyLess(a, b) ==> !KeyLess(b, a) && a != b
    ensures forall a, b, c :: KeyLess(a, b) && KeyLess(b, c) ==> KeyLess(a, c)
  {
    TextOrder();
  }
}
