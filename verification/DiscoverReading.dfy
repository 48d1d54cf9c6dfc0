/**
  What the server makes of any discover request, whoever wrote it: which part of the query a parameter
  is read from, which number is a limit, and which tags are taken, in what order.
*/
module DiscoverReading {
  import opened Wrappers
  import opened Text
  import opened Decimal
  import opened PercentCodec
  import opened DiscoverQuery

  // ---------- parameters ----------

  /** The part is a name, and after an equals sign a text, which decode to the key and the value. */
  ghost predicate ReadsAs(part: string, key: string, value: string) {
    exists name, text :: IsPart(part, name, text) && Decoded(name) == Some(key) && Decoded(text) == Some(value)
  }

  /** The first equals sign, if there is one, ends the name; without one the text is empty. */
  predicate IsPart(part: string, name: string, text: string) {
    '=' !in name && (part == name + "=" + text || (part == name && text == ""))
  }

  lemma {:induction false} SplitOnceParts(s: string, c: char)
    ensures match SplitOnce(s, c)
            case None => c !in s
            case Some((front, back)) => s == front + [c] + back && c !in front
  {
    if s != "" {
      SplitOnceParts(s[1..], c);
      assert s == [s[0]] + s[1..];
    }
  }

  lemma PartIsRead(part: string, name: string, text: string)
    requires IsPart(part, name, text)
    ensures ParsePart(part) == if Decoded(name).Some? && Decoded(text).Some?
                               then Some((Decoded(name).value, Decoded(text).value)) else None
  {
    SplitOnceParts(part, '=');
    if part == name + "=" + text {
      SplitOnceAt(name, text, '=');
    }
  }

  lemma ParsePartIff(part: string, key: string, value: string)
    ensures ParsePart(part) == Some((key, value)) <==> ReadsAs(part, key, value)
  {
    SplitOnceParts(part, '=');
    if ParsePart(part) == Some((key, value)) {
      if SplitOnce(part, '=').None? {
        assert IsPart(part, part, "");
      } else {
        var (name, text) := SplitOnce(part, '=').value;
        assert IsPart(part, name, text);
      }
    }
    forall name, text | IsPart(part, name, text) && Decoded(name) == Some(key) && Decoded(text) == Some(value)
      ensures ParsePart(part) == Some((key, value))
    {
      PartIsRead(part, name, text);
    }
  }

  /** The last part that gives any value gives this one. */
  ghost predicate LastGives(parts: seq<string>, gives: (string, string) -> bool, value: string) {
    exists i :: && 0 <= i < |parts| && gives(parts[i], value)
                && forall j, v :: i < j < |parts| ==> !gives(parts[j], v)
  }

  lemma LastGivesOfOne(parts: seq<string>, gives: (string, string) -> bool, value: string)
    requires parts != []
    ensures
      var n := |parts| - 1;
      LastGives(parts, gives, value)
      <==> if exists v :: gives(parts[n], v) then gives(parts[n], value) else LastGives(parts[..n], gives, value)
  {
    var n := |parts| - 1;
    var front := parts[..n];
    if gives(parts[n], value) {
      assert LastGives(parts, gives, value);
    }
    if LastGives(front, gives, value) && !exists v :: gives(parts[n], v) {
      var i :| 0 <= i < |front| && gives(front[i], value) && forall j, v :: i < j < |front| ==> !gives(front[j], v);
      assert gives(parts[i], value);
      forall j, v | i < j < |parts|
        ensures !gives(parts[j], v)
      {
        assert j < n ==> parts[j] == front[j];
      }
    }
    if LastGives(parts, gives, value) && !gives(parts[n], value) {
      var i :| 0 <= i < |parts| && gives(parts[i], value) && forall j, v :: i < j < |parts| ==> !gives(parts[j], v);
      assert gives(front[i], value);
      assert forall j :: 0 <= j < n ==> front[j] == parts[j];
    }
  }

  /** The part is not empty, and gives the key the value. */
  ghost function Gives(key: string): (string, string) -> bool {
    (part, value) => part != "" && ReadsAs(part, key, value)
  }

  lemma GivesIff(part: string, key: string, value: string)
    ensures Gives(key)(part, value) <==> part != "" && ParsePart(part) == Some((key, value))
  {
    ParsePartIff(part, key, value);
  }

  lemma {:induction false} CollectLast(parts: seq<string>, key: string, value: string)
    ensures Lookup(Collect(parts), key) == Some(value) <==> LastGives(parts, Gives(key), value)
  {
    if parts != [] {
      var n := |parts| - 1;
      CollectLast(parts[..n], key, value);
      LastGivesOfOne(parts, Gives(key), value);
      forall v
        ensures Gives(key)(parts[n], v) <==> parts[n] != "" && ParsePart(parts[n]) == Some((key, v))
      {
        GivesIff(parts[n], key, v);
      }
    }
  }

  /**
    A parameter has the value that the last part between ampersands gives it; empty parts, and parts
    that cannot be decoded, give none.
  */
  lemma ParameterIsLast(query: string, key: string, value: string)
    ensures Join(Split(query, '&'), '&') == query
    ensures Lookup(ParseQuery(query), key) == Some(value) <==> LastGives(Split(query, '&'), Gives(key), value)
  {
    JoinOfSplit(query, '&');
    CollectLast(Split(query, '&'), key, value);
  }

  /** The query is the text behind the first question mark. */
  lemma QueryIsBehindMark(path: string)
    ensures if '?' in path then exists front :: '?' !in front && path == front + "?" + QueryOf(path)
            else QueryOf(path) == ""
  {
    SplitOnceParts(path, '?');
    if SplitOnce(path, '?').Some? {
      var (front, query) := SplitOnce(path, '?').value;
      assert '?' !in front && path == front + "?" + QueryOf(path);
    }
  }

  // ---------- limit and seed ----------

  /** The text is a decimal number of 64 bits, perhaps with zeros and a plus sign in front. */
  ghost predicate IsNumber(text: string, n: nat) {
    n < 0x1_0000_0000_0000_0000 && exists k :: text == Zeros(k) + PrintNat(n) || text == "+" + (Zeros(k) + PrintNat(n))
  }

  /** The limit asked for, brought between 1 and 25; without one that is a number it is 3. */
  lemma LimitIsRead(path: string, n: nat)
    ensures
      var asked := Lookup(ParseQuery(QueryOf(path)), "limit");
      && (asked.Some? && IsNumber(asked.value, n) ==>
            ServerRequest(path).limit == if n == 0 then 1 else if n > 25 then 25 else n)
      && ((asked.None? || forall m :: !IsNumber(asked.value, m)) ==> ServerRequest(path).limit == 3)
  {
    var asked := Lookup(ParseQuery(QueryOf(path)), "limit");
    if asked.Some? {
      forall m: nat
        ensures ParseNat(asked.value, USIZE_MAX) == Some(m) <==> IsNumber(asked.value, m)
      {
        ParseNatIff(asked.value, USIZE_MAX, m);
      }
    }
  }

  /** The characters of the White_Space property, by their code points. */
  lemma WhitespaceTable(c: char)
    ensures IsWhitespace(c) <==>
      var n := c as int;
      9 <= n <= 13 || n == 32 || n == 133 || n == 160 || n == 5760 || 8192 <= n <= 8202 || n == 8232 || n == 8233
      || n == 8239 || n == 8287 || n == 12288
  {
  }

  predicate AllWhite(s: string) {
    forall i :: 0 <= i < |s| ==> IsWhitespace(s[i])
  }

  lemma {:induction false} TrimStartParts(s: string) returns (front: string)
    ensures AllWhite(front) && s == front + TrimStart(s)
  {
    if s != "" && IsWhitespace(s[0]) {
      front := TrimStartParts(s[1..]);
      front := [s[0]] + front;
      assert s == [s[0]] + s[1..];
    } else {
      front := "";
    }
  }

  lemma {:induction false} TrimEndParts(s: string) returns (back: string)
    ensures AllWhite(back) && s == TrimEnd(s) + back
  {
    if s != "" && IsWhitespace(s[|s| - 1]) {
      back := TrimEndParts(s[..|s| - 1]);
      back := back + [s[|s| - 1]];
      assert s == s[..|s| - 1] + [s[|s| - 1]];
    } else {
      back := "";
    }
  }

  /** Trimming takes the white space off both ends, all of it, and nothing else. */
  lemma TrimParts(s: string) returns (front: string, back: string)
    ensures s == front + Trim(s) + back && AllWhite(front) && AllWhite(back) && Trimmed(Trim(s))
  {
    front := TrimStartParts(s);
    back := TrimEndParts(TrimStart(s));
    TrimTwice(s);
  }

  /** The seed is the one asked for, trimmed, unless nothing is left of it. */
  lemma SeedIsRead(path: string)
    ensures
      var asked := Lookup(ParseQuery(QueryOf(path)), "seed");
      ServerRequest(path).seed == if asked.Some? && Trim(asked.value) != "" then Some(Trim(asked.value)) else None
  {
  }

  /** The client asks for discover with a limit first, and sends every tag trimmed that is not empty then. */
  lemma ClientWrites(tags: seq<string>, limit: nat, seed: Option<string>)
    ensures "/v1/discover?limit=" <= DiscoverPath(tags, limit, seed)
    ensures forall t :: t in TrimmedTags(tags) <==> t != "" && exists i :: 0 <= i < |tags| && t == Trim(tags[i])
    ensures |TrimmedTags(tags)| <= |tags|
  {
    TrimmedTagsAre(tags);
  }

  lemma {:induction false} TrimmedTagsAre(tags: seq<string>)
    ensures forall t :: t in TrimmedTags(tags) <==> t != "" && exists i :: 0 <= i < |tags| && t == Trim(tags[i])
    ensures |TrimmedTags(tags)| <= |tags|
  {
    if tags != [] {
      TrimmedTagsAre(tags[1..]);
      assert tags == [tags[0]] + tags[1..];
    }
  }

  // ---------- tags ----------

  /** Upper-case letters of ASCII become lower-case, and every other character stays. */
  lemma LowerTable(c: char)
    ensures LowerChar(c) == if 'A' <= c <= 'Z' then "abcdefghijklmnopqrstuvwxyz"[c as int - 'A' as int] else c
  {
    var t := "abcdefghijklmnopqrstuvwxyz";
    if 'A' <= c <= 'Z' {
      var k := c as int - 'A' as int;
      assert t[k] as int == 'a' as int + k;
    }
  }

  /** What the tags at these positions are normalized to. */
  ghost predicate TakenFrom(taken: seq<string>, tags: seq<string>, at: seq<nat>) {
    && |at| == |taken|
    && (forall p :: 0 <= p < |at| ==>
          at[p] < |tags| && taken[p] != "" && taken[p] == ToAsciiLowercase(Trim(tags[at[p]])))
    && (forall p, q :: 0 <= p < q < |at| ==> at[p] < at[q] && taken[p] != taken[q])
  }

  /** A tag is taken, or empty, or comes after five that were. */
  ghost predicate TakenOrLate(taken: seq<string>, tags: seq<string>, at: seq<nat>, i: nat)
    requires i < |tags| && |at| == |taken|
  {
    var tag := ToAsciiLowercase(Trim(tags[i]));
    || tag == ""
    || (|taken| == 5 && at[4] < i)
    || exists p :: 0 <= p < |taken| && at[p] <= i && taken[p] == tag
  }

  /** One more tag of the list is looked at. */
  function TakeTag(taken: seq<string>, tag: string): seq<string> {
    if tag == "" || tag in taken || |taken| >= 5 then taken else taken + [tag]
  }

  lemma {:induction false} NormalizeAppend(taken: seq<string>, tags: seq<string>, last: string)
    requires |taken| <= 5
    ensures NormalizeOnto(taken, tags + [last])
            == TakeTag(NormalizeOnto(taken, tags), ToAsciiLowercase(Trim(last)))
    ensures |NormalizeOnto(taken, tags)| <= 5
    decreases |tags|
  {
    var all := tags + [last];
    if tags == [] {
      assert all[1..] == [];
    } else if |taken| < 5 {
      var tag := ToAsciiLowercase(Trim(tags[0]));
      assert all[1..] == tags[1..] + [last];
      NormalizeAppend(TakeTag(taken, tag), tags[1..], last);
    }
  }

  /**
    The tags taken are the first five different ones of the list, trimmed and in lower case, without
    empty ones, in the order of their first occurrences.
  */
  lemma {:induction false} TagsAreFirstFive(tags: seq<string>) returns (at: seq<nat>)
    ensures |Normalized(tags)| <= 5 && TakenFrom(Normalized(tags), tags, at)
    ensures forall i :: 0 <= i < |tags| ==> TakenOrLate(Normalized(tags), tags, at, i)
  {
    if tags == [] {
      at := [];
    } else {
      var n := |tags| - 1;
      var front := tags[..n];
      at := TagsAreFirstFive(front);
      NormalizeAppend([], front, tags[n]);
      assert front + [tags[n]] == tags;
      var tag, taken := ToAsciiLowercase(Trim(tags[n])), Normalized(front);
      var before := at;
      if tag != "" && tag !in taken && |taken| < 5 {
        at := at + [n];
      }
      assert at[..|taken|] == before;
      forall i | 0 <= i < |tags|
        ensures TakenOrLate(Normalized(tags), tags, at, i)
      {
        TakenLonger(taken, tags, at, i);
      }
    }
  }

  lemma TakenLonger(taken: seq<string>, tags: seq<string>, at: seq<nat>, i: nat)
    requires tags != [] && i < |tags|
    requires
      var n := |tags| - 1;
      var tag := ToAsciiLowercase(Trim(tags[n]));
      var added := tag != "" && tag !in taken && |taken| < 5;
      && |taken| <= 5
      && |at| == |taken| + (if added then 1 else 0) && (added ==> at[|taken|] == n)
      && TakenFrom(taken, tags[..n], at[..|taken|])
      && forall k :: 0 <= k < n ==> TakenOrLate(taken, tags[..n], at[..|taken|], k)
    ensures
      var tag := ToAsciiLowercase(Trim(tags[|tags| - 1]));
      TakenOrLate(TakeTag(taken, tag), tags, at, i)
  {
    var n := |tags| - 1;
    var tag := ToAsciiLowercase(Trim(tags[n]));
    var after := TakeTag(taken, tag);
    if i < n {
      assert TakenOrLate(taken, tags[..n], at[..|taken|], i);
      if p :| 0 <= p < |taken| && at[..|taken|][p] <= i && taken[p] == ToAsciiLowercase(Trim(tags[i])) {
        assert after[p] == taken[p] && at[p] <= i;
      }
    } else if tag in taken {
      var p :| 0 <= p < |taken| && taken[p] == tag;
      assert at[..|taken|][p] < n && after[p] == tag;
    } else if |taken| == 5 {
      assert at[..|taken|][4] < n;
    } else if tag != "" {
      assert after[|taken|] == tag;
    }
  }

  /** The tags come from the list under "tags", split at commas, and then from the one under "tag". */
  lemma TagsAreRead(path: string)
    ensures
      var params := ParseQuery(QueryOf(path));
      var lists := if "tags" in params then Split(params["tags"], ',') else [];
      && ServerRequest(path).tags == Normalized(lists + if "tag" in params then [params["tag"]] else [])
      && ("tags" in params ==> Join(lists, ',') == params["tags"])
  {
    var params := ParseQuery(QueryOf(path));
    if "tags" in params {
      JoinOfSplit(params["tags"], ',');
    }
  }
}
