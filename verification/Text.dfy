/** Splitting text at a separator, and joining with one. */
module Text {

  /** The parts of a text between its separators; at least one part. */
  function Split(s: string, sep: char): (r: seq<string>)
    ensures r != []
    ensures forall i :: 0 <= i < |r| ==> sep !in r[i]
  {
    if s == [] then [""]
    else
      var rest := Split(s[1..], sep);
      if s[0] == sep then [""] + rest else Extend(s[0], rest)
  }

  /** The first part with a character more in front. */
  function Extend(c: char, parts: seq<string>): seq<string>
    requires parts != []
  {
    [[c] + parts[0]] + parts[1..]
  }

  lemma ExtendConcat(c: char, a: seq<string>, b: seq<string>)
    requires a != []
    ensures Extend(c, a + b) == Extend(c, a) + b
  {
    assert (a + b)[1..] == a[1..] + b;
  }

  function Join(parts: seq<string>, sep: char): string {
    if parts == [] then ""
    else if |parts| == 1 then parts[0]
    else parts[0] + [sep] + Join(parts[1..], sep)
  }

  /** The parts of all texts, one text after another. */
  function SplitAll(parts: seq<string>, sep: char): seq<string> {
    if parts == [] then [] else Split(parts[0], sep) + SplitAll(parts[1..], sep)
  }

  lemma {:induction false} SplitFree(s: string, sep: char)
    requires sep !in s
    ensures Split(s, sep) == [s]
  {
    if s != [] {
      SplitFree(s[1..], sep);
      assert s == [s[0]] + s[1..];
    }
  }

  lemma {:induction false} SplitAtSeparator(a: string, b: string, sep: char)
    ensures Split(a + [sep] + b, sep) == Split(a, sep) + Split(b, sep)
  {
    var s := a + [sep] + b;
    if a == [] {
      assert s[1..] == b;
    } else {
      assert s[1..] == a[1..] + [sep] + b;
      SplitAtSeparator(a[1..], b, sep);
      if a[0] == sep {
        assert [""] + (Split(a[1..], sep) + Split(b, sep)) == ([""] + Split(a[1..], sep)) + Split(b, sep);
      } else {
        ExtendConcat(a[0], Split(a[1..], sep), Split(b, sep));
      }
    }
  }

  /** Splitting a joined text gives the parts of the parts. */
  lemma {:induction false} SplitOfJoin(parts: seq<string>, sep: char)
    requires parts != []
    ensures Split(Join(parts, sep), sep) == SplitAll(parts, sep)
  {
    if |parts| == 1 {
      assert SplitAll(parts[1..], sep) == [];
    } else {
      SplitOfJoin(parts[1..], sep);
      SplitAtSeparator(parts[0], Join(parts[1..], sep), sep);
    }
  }

  lemma {:induction false} SplitAllFree(parts: seq<string>, sep: char)
    requires forall i :: 0 <= i < |parts| ==> sep !in parts[i]
    ensures SplitAll(parts, sep) == parts
  {
    if parts != [] {
      SplitFree(parts[0], sep);
      SplitAllFree(parts[1..], sep);
    }
  }

  /** Splitting gives at least as many parts, and as many only when there was nothing to split. */
  lemma {:induction false} SplitAllGrows(parts: seq<string>, sep: char)
    ensures |SplitAll(parts, sep)| >= |parts|
    ensures |SplitAll(parts, sep)| == |parts| ==> forall i :: 0 <= i < |parts| ==> sep !in parts[i]
  {
    if parts != [] {
      SplitAllGrows(parts[1..], sep);
      if |Split(parts[0], sep)| == 1 {
        SplitOnePart(parts[0], sep);
      }
      assert parts == [parts[0]] + parts[1..];
    }
  }

  lemma {:induction false} SplitOnePart(s: string, sep: char)
    requires |Split(s, sep)| == 1
    ensures sep !in s
  {
    if s != [] {
      SplitOnePart(s[1..], sep);
      assert s == [s[0]] + s[1..];
    }
  }

  /**
    Joined texts determine their parts among those of as many parts, when the parts of one of them do
    not hold the separator.
  */
  lemma JoinInjective(a: seq<string>, b: seq<string>, sep: char)
    requires a != [] && forall i :: 0 <= i < |a| ==> sep !in a[i]
    requires |a| == |b| && Join(a, sep) == Join(b, sep)
    ensures a == b
  {
    SplitOfJoin(a, sep);
    SplitAllFree(a, sep);
    SplitOfJoin(b, sep);
    SplitAllGrows(b, sep);
    SplitAllFree(b, sep);
  }

  /** Splitting takes the separators out and nothing else: joining puts them back. */
  lemma {:induction false} JoinOfSplit(s: string, sep: char)
    ensures Join(Split(s, sep), sep) == s
  {
    if s != [] {
      JoinOfSplit(s[1..], sep);
      assert s == [s[0]] + s[1..];
      var rest := Split(s[1..], sep);
      if s[0] == sep {
        assert ([""] + rest)[1..] == rest;
      } else {
        assert Extend(s[0], rest)[1..] == rest[1..];
        if |rest| > 1 {
          assert ([s[0]] + rest[0]) + [sep] + Join(rest[1..], sep) == [s[0]] + (rest[0] + [sep] + Join(rest[1..], sep));
        }
      }
    }
  }
}
