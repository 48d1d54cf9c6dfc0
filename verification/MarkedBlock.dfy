/**
  Rewriting the marked block of an instructions file: the block between two markers is replaced, or
  appended when the file has none. When doing it twice is the same as doing it once.
*/
module MarkedBlock {
  import opened Wrappers

  const BEGIN := "<!-- BEGIN AICHAN -->"
  const END := "<!-- END AICHAN -->"

  // ---------- the rewrite ----------

  /** The position of the first occurrence. */
  function Find(s: string, p: string): (r: Option<nat>)
    ensures r.Some? ==> r.value + |p| <= |s|
  {
    if p <= s then Some(0)
    else if s == [] then None
    else
      match Find(s[1..], p)
      case None => None
      case Some(i) => Some(i + 1)
  }

  function TrimNewlines(s: string): string {
    if s != [] && s[0] == '\n' then TrimNewlines(s[1..]) else s
  }

  function Block(body: string, begin: string, end: string): string {
    begin + "\n" + body + end + "\n"
  }

  /** The text up to i, the block, and the text from j on without newlines at its front. */
  function Splice(s: string, i: nat, j: nat, block: string): string
    requires i <= |s| && j <= |s|
  {
    s[..i] + block + TrimNewlines(s[j..])
  }

  /** The front of a file that the block is appended to. */
  function Front(existing: string): string {
    if existing == "" then ""
    else existing + (if existing[|existing| - 1] == '\n' then "" else "\n") + "\n"
  }

  /** The new contents of a file with its first markers at these positions. */
  function RewriteAt(existing: string, begin: Option<nat>, end: Option<nat>, endLength: nat, block: string): string
    requires begin.Some? ==> begin.value <= |existing|
    requires end.Some? ==> end.value + endLength <= |existing|
  {
    if begin.Some? && end.Some? then Splice(existing, begin.value, end.value + endLength, block)
    else Front(existing) + block
  }

  /** The new contents of the file. */
  function Rewrite(existing: string, body: string, begin: string, end: string): string {
    RewriteAt(existing, Find(existing, begin), Find(existing, end), |end|, Block(body, begin, end))
  }

  // ---------- occurrences ----------

  predicate OccursAt(s: string, p: string, i: nat) {
    i + |p| <= |s| && s[i..i + |p|] == p
  }

  ghost predicate Absent(s: string, p: string) {
    forall i: nat :: !OccursAt(s, p, i)
  }

  ghost predicate FirstAt(s: string, p: string, i: nat) {
    OccursAt(s, p, i) && forall j: nat :: j < i ==> !OccursAt(s, p, j)
  }

  ghost predicate IsFirst(s: string, p: string, r: Option<nat>) {
    match r
    case None => Absent(s, p)
    case Some(i) => FirstAt(s, p, i)
  }

  lemma OccursChar(s: string, p: string, i: nat, k: nat)
    requires OccursAt(s, p, i) && k < |p|
    ensures s[i + k] == p[k]
  {
    assert s[i..i + |p|][k] == s[i + k];
  }

  lemma NotAt(s: string, p: string, i: nat, k: nat)
    requires i + k < |s| && k < |p| && s[i + k] != p[k]
    ensures !OccursAt(s, p, i)
  {
    if i + |p| <= |s| {
      assert s[i..i + |p|][k] == s[i + k];
    }
  }

  lemma SameWindow(s: string, p: string, i: nat, t: string, j: nat)
    requires i + |p| <= |s| && j + |p| <= |t| && s[i..i + |p|] == t[j..j + |p|]
    ensures OccursAt(s, p, i) <==> OccursAt(t, p, j)
  {
  }

  lemma OccursInTail(s: string, p: string, i: nat)
    requires s != [] && i > 0
    ensures OccursAt(s, p, i) <==> OccursAt(s[1..], p, i - 1)
  {
    if i + |p| <= |s| {
      SameWindow(s, p, i, s[1..], i - 1);
    }
  }

  lemma OccursAtStart(s: string, p: string)
    ensures OccursAt(s, p, 0) <==> p <= s
  {
    assert |p| <= |s| ==> s[0..0 + |p|] == s[..|p|];
  }

  /** `Find` gives the first occurrence, and None iff there is none. */
  lemma {:induction false} FindIsFirst(s: string, p: string)
    requires p != ""
    ensures IsFirst(s, p, Find(s, p))
  {
    OccursAtStart(s, p);
    if s != [] && !(p <= s) {
      FindIsFirst(s[1..], p);
      forall i: nat | i > 0
        ensures OccursAt(s, p, i) <==> OccursAt(s[1..], p, i - 1)
      {
        OccursInTail(s, p, i);
      }
    }
  }

  /** The first occurrence is the only one that is first. */
  lemma FindIs(s: string, p: string, r: Option<nat>)
    requires p != "" && IsFirst(s, p, r)
    ensures Find(s, p) == r
  {
    FindIsFirst(s, p);
    OnlyFirst(s, p, r, Find(s, p));
  }

  lemma OnlyFirst(s: string, p: string, r: Option<nat>, q: Option<nat>)
    requires IsFirst(s, p, r) && IsFirst(s, p, q)
    ensures r == q
  {
    assert r.Some? ==> OccursAt(s, p, r.value);
    assert q.Some? ==> OccursAt(s, p, q.value);
  }

  // ---------- markers ----------

  predicate WithoutBracket(p: string) {
    p != "" ==> p[0] != '<' && p[0] != '\n' && WithoutBracket(p[1..])
  }

  /** A text whose only angle bracket is its first character, without newlines. */
  predicate Marker(p: string) {
    |p| > 1 && p[0] == '<' && WithoutBracket(p[1..])
  }

  lemma {:induction false} WithoutBracketAt(p: string, i: nat)
    requires WithoutBracket(p) && i < |p|
    ensures p[i] != '<' && p[i] != '\n'
  {
    if i > 0 {
      WithoutBracketAt(p[1..], i - 1);
    }
  }

  lemma {:induction false} AllWithoutBracket(p: string)
    requires forall i :: 0 <= i < |p| ==> p[i] != '<' && p[i] != '\n'
    ensures WithoutBracket(p)
  {
    if p != "" {
      AllWithoutBracket(p[1..]);
    }
  }

  /** The texts differ at a position both have. */
  predicate Differ(p: string, q: string) {
    p != "" && q != "" && (p[0] != q[0] || Differ(p[1..], q[1..]))
  }

  lemma {:induction false} DifferAt(p: string, q: string) returns (k: nat)
    requires Differ(p, q)
    ensures k < |p| && k < |q| && p[k] != q[k]
  {
    if p[0] != q[0] {
      k := 0;
    } else {
      k := DifferAt(p[1..], q[1..]);
      k := k + 1;
    }
  }

  lemma {:induction false} DifferFrom(p: string, q: string, k: nat)
    requires k < |p| && k < |q| && p[k] != q[k]
    ensures Differ(p, q)
  {
    if k > 0 {
      DifferFrom(p[1..], q[1..], k - 1);
    }
  }

  predicate Markers(begin: string, end: string) {
    Marker(begin) && Marker(end) && Differ(begin, end)
  }

  lemma AichanMarkers()
    ensures Markers(BEGIN, END)
  {
    var begin, end := BEGIN, END;
    AllWithoutBracket(begin[1..]);
    AllWithoutBracket(end[1..]);
    DifferFrom(begin, end, 5);
  }

  /** No marker runs across the beginning of the text. */
  predicate Breaks(y: string) {
    y == "" || y[0] == '<' || y[0] == '\n'
  }

  lemma OccursInParts(x: string, y: string, p: string, i: nat)
    requires Marker(p) && Breaks(y)
    ensures OccursAt(x + y, p, i) <==> if i < |x| then OccursAt(x, p, i) else OccursAt(y, p, i - |x|)
  {
    if i + |p| <= |x| {
      SameWindow(x + y, p, i, x, i);
    } else if i < |x| {
      if y != "" {
        assert (x + y)[i + (|x| - i)] == y[0];
        WithoutBracketAt(p[1..], |x| - i - 1);
        NotAt(x + y, p, i, |x| - i);
      }
    } else if i + |p| <= |x + y| {
      SameWindow(x + y, p, i, y, i - |x|);
    }
  }

  lemma AbsentInParts(x: string, y: string, p: string)
    requires Marker(p) && Breaks(y) && Absent(x, p) && Absent(y, p)
    ensures Absent(x + y, p)
  {
    forall i: nat
      ensures !OccursAt(x + y, p, i)
    {
      OccursInParts(x, y, p, i);
    }
  }

  /** Text without the marker in front only moves the first occurrence. */
  lemma FirstAfter(x: string, y: string, p: string, i: nat)
    requires Marker(p) && Breaks(y) && Absent(x, p) && FirstAt(y, p, i)
    ensures FirstAt(x + y, p, |x| + i)
  {
    forall j: nat
      ensures OccursAt(x + y, p, j) <==> j >= |x| && OccursAt(y, p, j - |x|)
    {
      OccursInParts(x, y, p, j);
    }
  }

  /** Text behind does not change the first occurrence. */
  lemma FirstBefore(x: string, y: string, p: string, i: nat)
    requires Marker(p) && Breaks(y) && FirstAt(x, p, i)
    ensures FirstAt(x + y, p, i)
  {
    forall j: nat | j <= i
      ensures OccursAt(x + y, p, j) <==> OccursAt(x, p, j)
    {
      OccursInParts(x, y, p, j);
    }
  }

  lemma OccursInPrefix(s: string, p: string, n: nat, i: nat)
    requires n <= |s|
    ensures OccursAt(s[..n], p, i) <==> i + |p| <= n && OccursAt(s, p, i)
  {
    if i + |p| <= n {
      SameWindow(s[..n], p, i, s, i);
    }
  }

  lemma AbsentBeforeFirst(s: string, p: string, i: nat, n: nat)
    requires p != "" && FirstAt(s, p, i) && n <= i <= |s|
    ensures Absent(s[..n], p)
  {
    forall j: nat
      ensures !OccursAt(s[..n], p, j)
    {
      OccursInPrefix(s, p, n, j);
    }
  }

  lemma FirstInPrefix(s: string, p: string, i: nat, n: nat)
    requires FirstAt(s, p, i) && i + |p| <= n <= |s|
    ensures FirstAt(s[..n], p, i)
  {
    forall j: nat | j <= i
      ensures OccursAt(s[..n], p, j) <==> j + |p| <= n && OccursAt(s, p, j)
    {
      OccursInPrefix(s, p, n, j);
    }
  }

  /** A marker does not occur in text without its first character. */
  lemma AbsentWithoutBracket(s: string, p: string)
    requires Marker(p) && '<' !in s
    ensures Absent(s, p)
  {
    forall i: nat
      ensures !OccursAt(s, p, i)
    {
      if i < |s| {
        NotAt(s, p, i, 0);
      }
    }
  }

  lemma OtherMarkerIsAbsent(begin: string, end: string)
    requires Markers(begin, end)
    ensures Absent(begin, end)
  {
    var k := DifferAt(begin, end);
    forall i: nat
      ensures !OccursAt(begin, end, i)
    {
      if i < |begin| {
        if i > 0 {
          WithoutBracketAt(begin[1..], i - 1);
        }
        NotAt(begin, end, i, if i == 0 then k else 0);
      }
    }
  }

  /** Markers that occur at different places do not overlap. */
  lemma MarkersApart(s: string, p: string, q: string, i: nat, j: nat)
    requires Marker(p) && Marker(q) && OccursAt(s, p, i) && OccursAt(s, q, j) && i < j
    ensures i + |p| <= j && s[j] == '<'
  {
    var k := if j - i < |p| then j - i else 1;
    OccursChar(s, q, j, 0);
    OccursChar(s, p, i, k);
    WithoutBracketAt(p[1..], k - 1);
  }

  lemma MarkersDiffer(s: string, begin: string, end: string, i: nat)
    requires Markers(begin, end) && OccursAt(s, begin, i)
    ensures !OccursAt(s, end, i)
  {
    var k := DifferAt(begin, end);
    OccursChar(s, begin, i, k);
    NotAt(s, end, i, k);
  }

  // ---------- the block ----------

  /** Neither marker occurs in the body. */
  ghost predicate Plain(body: string, begin: string, end: string) {
    Absent(body, begin) && Absent(body, end)
  }

  lemma NewlineThenBody(body: string, p: string)
    requires Marker(p) && Absent(body, p)
    ensures Absent("\n" + body, p)
  {
    forall i: nat
      ensures !OccursAt("\n" + body, p, i)
    {
      if i == 0 {
        NotAt("\n" + body, p, 0, 0);
      } else {
        OccursInTail("\n" + body, p, i);
        assert ("\n" + body)[1..] == body;
      }
    }
  }

  /**
    With the rest behind it, the first begin marker is in front of the block, and the first end marker
    at its end, but for a newline.
  */
  ghost predicate BlockBefore(block: string, begin: string, end: string, rest: string) {
    && |block| > |end| && block[0] == '<' && block[|block| - 1..] == "\n"
    && FirstAt(block + rest, begin, 0) && FirstAt(block + rest, end, |block| - 1 - |end|)
  }

  ghost predicate IsBlock(block: string, begin: string, end: string) {
    forall rest :: BlockBefore(block, begin, end, rest)
  }

  lemma MarkersOfBlock(body: string, begin: string, end: string, rest: string)
    requires Markers(begin, end) && Plain(body, begin, end)
    ensures FirstAt(Block(body, begin, end) + rest, begin, 0)
    ensures FirstAt(Block(body, begin, end) + rest, end, |begin| + 1 + |body|)
  {
    var all := Block(body, begin, end) + rest;
    var tail := end + ("\n" + rest);
    assert all == begin + (("\n" + body) + tail);
    OccursAtStart(all, begin);
    OccursAtStart(tail, end);
    OtherMarkerIsAbsent(begin, end);
    NewlineThenBody(body, end);
    FirstAfter("\n" + body, tail, end, 0);
    FirstAfter(begin, ("\n" + body) + tail, end, |"\n" + body|);
  }

  /** What is written is such a text, when neither marker occurs in the body. */
  lemma BlockIsBlock(body: string, begin: string, end: string)
    requires Markers(begin, end) && Plain(body, begin, end)
    ensures IsBlock(Block(body, begin, end), begin, end)
  {
    var block := Block(body, begin, end);
    assert |block| - 1 - |end| == |begin| + 1 + |body|;
    assert block[0] == begin[0];
    forall rest
      ensures BlockBefore(block, begin, end, rest)
    {
      MarkersOfBlock(body, begin, end, rest);
    }
  }

  lemma FirstInBlock(front: string, p: string, block: string, rest: string, i: nat)
    requires Marker(p) && block != "" && block[0] == '<'
    requires Absent(front, p) && FirstAt(block + rest, p, i)
    ensures FirstAt(front + (block + rest), p, |front| + i)
  {
    assert (block + rest)[0] == block[0];
    FirstAfter(front, block + rest, p, i);
  }

  // ---------- cutting and joining ----------

  lemma CutConcat(x: string, y: string, j: nat)
    requires j <= |x|
    ensures (x + y)[..|x|] == x && (x + y)[j..] == x[j..] + y
  {
  }

  lemma Regroup(x: string, y: string, z: string)
    ensures x + y + z == x + (y + z)
  {
  }

  lemma SpliceIs(s: string, i: nat, j: nat, block: string, front: string, back: string)
    requires i <= |s| && j <= |s| && s[..i] == front && s[j..] == back
    ensures Splice(s, i, j, block) == front + block + TrimNewlines(back)
  {
  }

  lemma {:induction false} TrimTwice(s: string)
    ensures TrimNewlines("\n" + TrimNewlines(s)) == TrimNewlines(s)
  {
    assert ("\n" + TrimNewlines(s))[1..] == TrimNewlines(s);
    if s != [] && s[0] == '\n' {
      TrimTwice(s[1..]);
    }
  }

  lemma {:induction false} TrimConcat(m: string, z: string)
    requires z != "" && z[0] != '\n'
    ensures TrimNewlines(m + z) == TrimNewlines(m) + z
  {
    if m == "" {
      assert m + z == z;
    } else {
      assert (m + z)[1..] == m[1..] + z;
      TrimConcat(m[1..], z);
    }
  }

  /** Replacing the block of a rewritten file by itself changes nothing. */
  lemma SpliceAgain(front: string, block: string, rest: string)
    requires block != "" && block[|block| - 1..] == "\n" && TrimNewlines("\n" + rest) == rest
    ensures Splice(front + block + rest, |front|, |front| + |block| - 1, block) == front + block + rest
  {
    var all := front + (block + rest);
    CutConcat(front, block + rest, 0);
    assert all[|front| + |block| - 1..] == block[|block| - 1..] + rest;
    SpliceIs(all, |front|, |front| + |block| - 1, block, front, "\n" + rest);
    Regroup(front, block, rest);
  }

  /** Replacing with an end in front of the beginning repeats what lies between them. */
  lemma SpliceRepeats(front: string, j: nat, block: string, tail: string)
    requires j <= |front| && tail != "" && tail[0] == '<'
    ensures Splice(front + tail, |front|, j, block) == front + (block + (TrimNewlines(front[j..]) + tail))
  {
    CutConcat(front, tail, j);
    TrimConcat(front[j..], tail);
    SpliceIs(front + tail, |front|, j, block, front, front[j..] + tail);
    Regroup(front, block, TrimNewlines(front[j..]) + tail);
  }

  lemma SpliceGrows(front: string, j: nat, block: string, rest: string)
    requires j <= |front| && block != "" && block[0] == '<'
    ensures |Splice(front + (block + rest), |front|, j, block)| > |front + (block + rest)|
  {
    assert (block + rest)[0] == '<';
    SpliceRepeats(front, j, block, block + rest);
  }

  // ---------- doing it twice ----------

  /** What the second rewrite makes of a file that the first has made. */
  ghost predicate Again(once: string, begin: string, end: string, block: string, twice: string) {
    exists b: Option<nat>, e: Option<nat> ::
      && IsFirst(once, begin, b) && IsFirst(once, end, e)
      && (b.Some? ==> b.value <= |once|) && (e.Some? ==> e.value + |end| <= |once|)
      && twice == RewriteAt(once, b, e, |end|, block)
  }

  lemma AgainAt(once: string, begin: string, end: string, block: string, b: nat, e: nat)
    requires FirstAt(once, begin, b) && FirstAt(once, end, e)
    ensures Again(once, begin, end, block, Splice(once, b, e + |end|, block))
  {
    assert IsFirst(once, begin, Some(b)) && IsFirst(once, end, Some(e));
    assert RewriteAt(once, Some(b), Some(e), |end|, block) == Splice(once, b, e + |end|, block);
  }

  /** A rewritten file: a front without markers, the block, and a rest that does not begin with a newline. */
  lemma RewrittenStays(front: string, begin: string, end: string, block: string, rest: string)
    requires Markers(begin, end) && BlockBefore(block, begin, end, rest)
    requires Absent(front, begin) && Absent(front, end) && TrimNewlines("\n" + rest) == rest
    ensures Again(front + block + rest, begin, end, block, front + block + rest)
  {
    Regroup(front, block, rest);
    FirstInBlock(front, begin, block, rest, 0);
    FirstInBlock(front, end, block, rest, |block| - 1 - |end|);
    AgainAt(front + block + rest, begin, end, block, |front|, |front| + |block| - 1 - |end|);
    SpliceAgain(front, block, rest);
  }

  lemma FirstIsInside(s: string, p: string, i: nat)
    requires FirstAt(s, p, i)
    ensures i + |p| <= |s|
  {
  }

  lemma AgainEndInFront(front: string, begin: string, end: string, block: string, e: nat, rest: string)
    requires Markers(begin, end) && BlockBefore(block, begin, end, rest)
    requires Absent(front, begin) && FirstAt(front, end, e)
    ensures
      var once := front + (block + rest);
      Again(once, begin, end, block, Splice(once, |front|, e + |end|, block))
  {
    FirstInBlock(front, begin, block, rest, 0);
    assert (block + rest)[0] == '<';
    FirstBefore(front, block + rest, end, e);
    AgainAt(front + (block + rest), begin, end, block, |front|, e);
  }

  /** A rewritten file with the end marker in its front: the second rewrite makes it longer. */
  lemma RewrittenGrows(front: string, begin: string, end: string, block: string, e: nat, rest: string)
    returns (twice: string)
    requires Markers(begin, end) && BlockBefore(block, begin, end, rest)
    requires Absent(front, begin) && FirstAt(front, end, e)
    ensures Again(front + (block + rest), begin, end, block, twice) && |twice| > |front + (block + rest)|
  {
    FirstIsInside(front, end, e);
    AgainEndInFront(front, begin, end, block, e, rest);
    SpliceGrows(front, e + |end|, block, rest);
    twice := Splice(front + (block + rest), |front|, e + |end|, block);
  }

  /** The front is the file with newlines behind it. */
  lemma FrontIsPadded(existing: string) returns (newlines: string)
    ensures Front(existing) == existing + newlines && Breaks(newlines) && '<' !in newlines
  {
    if existing == "" {
      newlines := "";
    } else {
      newlines := (if existing[|existing| - 1] == '\n' then "" else "\n") + "\n";
      assert existing + newlines == existing + (if existing[|existing| - 1] == '\n' then "" else "\n") + "\n";
    }
  }

  /** The front holds the markers the file holds. */
  lemma FrontMarkers(existing: string, p: string, r: Option<nat>)
    requires Marker(p) && IsFirst(existing, p, r)
    ensures IsFirst(Front(existing), p, r)
  {
    var newlines := FrontIsPadded(existing);
    AbsentWithoutBracket(newlines, p);
    match r {
      case None => AbsentInParts(existing, newlines, p);
      case Some(i) => FirstBefore(existing, newlines, p, i);
    }
  }

  /** With no marker in the file, the second time changes nothing. */
  lemma AppendTwice(existing: string, begin: string, end: string, block: string)
    requires Markers(begin, end) && IsBlock(block, begin, end)
    requires Absent(existing, begin) && Absent(existing, end)
    ensures
      var once := RewriteAt(existing, None, None, |end|, block);
      Again(once, begin, end, block, once)
  {
    FrontMarkers(existing, begin, None);
    FrontMarkers(existing, end, None);
    assert BlockBefore(block, begin, end, "");
    assert TrimNewlines(("\n" + "")[1..]) == "";
    RewrittenStays(Front(existing), begin, end, block, "");
    assert Front(existing) + block + "" == Front(existing) + block;
  }

  /** With both markers in order, the second time changes nothing. */
  lemma ReplacedStays(existing: string, begin: string, end: string, block: string, i: nat, j: nat)
    requires Markers(begin, end) && IsBlock(block, begin, end) && i <= |existing| && j <= |existing|
    requires Absent(existing[..i], begin) && Absent(existing[..i], end)
    ensures
      var once := Splice(existing, i, j, block);
      Again(once, begin, end, block, once)
  {
    var rest := TrimNewlines(existing[j..]);
    TrimTwice(existing[j..]);
    assert BlockBefore(block, begin, end, rest);
    RewrittenStays(existing[..i], begin, end, block, rest);
  }

  lemma SpliceShrinks(front: string, i: nat, block: string)
    requires i < |front| && block != "" && block[|block| - 1..] == "\n"
    ensures |Splice(front + block, i, |front| + |block| - 1, block)| < |front + block|
  {
    var once := front + block;
    assert once[|front| + |block| - 1..] == block[|block| - 1..];
    assert TrimNewlines("\n"[1..]) == "";
    SpliceIs(once, i, |front| + |block| - 1, block, once[..i], "\n");
  }

  lemma BeginInFront(front: string, begin: string, end: string, block: string, b: nat) returns (twice: string)
    requires Markers(begin, end) && BlockBefore(block, begin, end, "")
    requires FirstAt(front, begin, b) && Absent(front, end)
    ensures Again(front + block, begin, end, block, twice) && |twice| < |front + block|
  {
    twice := Splice(front + block, b, |front| + |block| - 1, block);
    AgainBeginInFront(front, begin, end, block, b);
    SpliceShrinks(front, b, block);
  }

  lemma AgainBeginInFront(front: string, begin: string, end: string, block: string, b: nat)
    requires Markers(begin, end) && BlockBefore(block, begin, end, "")
    requires FirstAt(front, begin, b) && Absent(front, end)
    ensures Again(front + block, begin, end, block, Splice(front + block, b, |front| + |block| - 1, block))
  {
    FirstBefore(front, block, begin, b);
    EndOfLastBlock(front, begin, end, block);
    AgainAt(front + block, begin, end, block, b, |front| + |block| - 1 - |end|);
  }

  lemma EndOfLastBlock(front: string, begin: string, end: string, block: string)
    requires Markers(begin, end) && BlockBefore(block, begin, end, "") && Absent(front, end)
    ensures FirstAt(front + block, end, |front| + |block| - 1 - |end|)
  {
    NothingBehind(block);
    FirstInBlock(front, end, block, "", |block| - 1 - |end|);
  }

  lemma NothingBehind(s: string)
    ensures s + "" == s
  {
  }

  lemma InOrder(existing: string, begin: string, end: string, block: string, b: nat, e: nat)
    requires Markers(begin, end) && IsBlock(block, begin, end)
    requires FirstAt(existing, begin, b) && FirstAt(existing, end, e) && b < e
    ensures
      var once := Splice(existing, b, e + |end|, block);
      Again(once, begin, end, block, once)
  {
    AbsentBeforeFirst(existing, begin, b, b);
    AbsentBeforeFirst(existing, end, e, b);
    ReplacedStays(existing, begin, end, block, b, e + |end|);
  }

  /** With only the begin marker, the second time drops what lies between it and the new block. */
  lemma OnlyBegin(existing: string, begin: string, end: string, block: string, b: nat) returns (twice: string)
    requires Markers(begin, end) && IsBlock(block, begin, end)
    requires FirstAt(existing, begin, b) && Absent(existing, end)
    ensures
      var once := RewriteAt(existing, Some(b), None, |end|, block);
      Again(once, begin, end, block, twice) && |twice| < |once|
  {
    FrontMarkers(existing, begin, Some(b));
    FrontMarkers(existing, end, None);
    assert BlockBefore(block, begin, end, "");
    twice := BeginInFront(Front(existing), begin, end, block, b);
  }

  /** With only the end marker, the second time repeats what lies behind it. */
  lemma OnlyEnd(existing: string, begin: string, end: string, block: string, e: nat) returns (twice: string)
    requires Markers(begin, end) && IsBlock(block, begin, end)
    requires Absent(existing, begin) && FirstAt(existing, end, e)
    ensures
      var once := RewriteAt(existing, None, Some(e), |end|, block);
      Again(once, begin, end, block, twice) && |twice| > |once|
  {
    FrontMarkers(existing, begin, None);
    FrontMarkers(existing, end, Some(e));
    assert BlockBefore(block, begin, end, "") && block + "" == block;
    twice := RewrittenGrows(Front(existing), begin, end, block, e, "");
  }

  lemma EndInFront(front: string, tail: string, begin: string, end: string, block: string, e: nat)
    returns (twice: string)
    requires Markers(begin, end) && IsBlock(block, begin, end)
    requires Absent(front, begin) && FirstAt(front, end, e) && tail != "" && tail[0] == '<'
    ensures
      var once := Splice(front + tail, |front|, e + |end|, block);
      Again(once, begin, end, block, twice) && |twice| > |once|
  {
    var rest := TrimNewlines(front[e + |end|..]) + tail;
    assert Splice(front + tail, |front|, e + |end|, block) == front + (block + rest) by {
      SpliceRepeats(front, e + |end|, block, tail);
    }
    assert BlockBefore(block, begin, end, rest);
    twice := RewrittenGrows(front, begin, end, block, e, rest);
  }

  /** With the end marker first, each time repeats what lies behind it. */
  lemma EndFirst(existing: string, begin: string, end: string, block: string, b: nat, e: nat) returns (twice: string)
    requires Markers(begin, end) && IsBlock(block, begin, end)
    requires FirstAt(existing, begin, b) && FirstAt(existing, end, e) && e < b
    ensures
      var once := RewriteAt(existing, Some(b), Some(e), |end|, block);
      Again(once, begin, end, block, twice) && |twice| > |once|
  {
    MarkersApart(existing, end, begin, e, b);
    AbsentBeforeFirst(existing, begin, b, b);
    FirstInPrefix(existing, end, e, b);
    twice := EndBefore(existing, begin, end, block, b, e);
  }

  lemma EndBefore(existing: string, begin: string, end: string, block: string, b: nat, e: nat) returns (twice: string)
    requires Markers(begin, end) && IsBlock(block, begin, end) && b < |existing| && existing[b] == '<'
    requires Absent(existing[..b], begin) && FirstAt(existing[..b], end, e)
    ensures
      var once := Splice(existing, b, e + |end|, block);
      Again(once, begin, end, block, twice) && |twice| > |once|
  {
    assert existing[..b] + existing[b..] == existing;
    twice := EndInFront(existing[..b], existing[b..], begin, end, block, e);
  }

  /** The second rewrite, in all cases. */
  lemma TwiceIsOnceIff(existing: string, begin: string, end: string, block: string, b: Option<nat>,
                       e: Option<nat>)
    returns (twice: string)
    requires Markers(begin, end) && IsBlock(block, begin, end)
    requires IsFirst(existing, begin, b) && IsFirst(existing, end, e)
    ensures
      var once := RewriteAt(existing, b, e, |end|, block);
      && Again(once, begin, end, block, twice)
      && (twice == once <==> (b.None? && e.None?) || (b.Some? && e.Some? && b.value < e.value))
  {
    match (b, e) {
      case (None, None) =>
        AppendTwice(existing, begin, end, block);
        twice := RewriteAt(existing, None, None, |end|, block);
      case (Some(i), None) =>
        twice := OnlyBegin(existing, begin, end, block, i);
      case (None, Some(j)) =>
        twice := OnlyEnd(existing, begin, end, block, j);
      case (Some(i), Some(j)) =>
        MarkersDiffer(existing, begin, end, i);
        if i < j {
          InOrder(existing, begin, end, block, i, j);
          twice := Splice(existing, i, j + |end|, block);
        } else {
          twice := EndFirst(existing, begin, end, block, i, j);
        }
    }
  }

  lemma AgainIsRewrite(once: string, body: string, begin: string, end: string, twice: string)
    requires begin != "" && end != "" && Again(once, begin, end, Block(body, begin, end), twice)
    ensures Rewrite(once, body, begin, end) == twice
  {
    var b: Option<nat>, e: Option<nat> :|
      && IsFirst(once, begin, b) && IsFirst(once, end, e)
      && (b.Some? ==> b.value <= |once|) && (e.Some? ==> e.value + |end| <= |once|)
      && twice == RewriteAt(once, b, e, |end|, Block(body, begin, end));
    FindIs(once, begin, b);
    FindIs(once, end, e);
  }

  /**
    Rewriting twice is rewriting once, for a body without markers, iff the file has neither marker,
    or has both and its first begin marker is in front of its first end marker.
  */
  lemma RewriteIsIdempotentIff(existing: string, body: string, begin: string, end: string)
    requires Markers(begin, end) && Plain(body, begin, end)
    ensures
      var b, e := Find(existing, begin), Find(existing, end);
      Rewrite(Rewrite(existing, body, begin, end), body, begin, end) == Rewrite(existing, body, begin, end)
      <==> (b.None? && e.None?) || (b.Some? && e.Some? && b.value < e.value)
  {
    FindIsFirst(existing, begin);
    FindIsFirst(existing, end);
    BlockIsBlock(body, begin, end);
    var twice :=
      TwiceIsOnceIff(existing, begin, end, Block(body, begin, end), Find(existing, begin), Find(existing, end));
    AgainIsRewrite(Rewrite(existing, body, begin, end), body, begin, end, twice);
  }

  /** The markers of the program are such markers. */
  lemma AichanBlockIsIdempotentIff(existing: string, body: string)
    requires Plain(body, BEGIN, END)
    ensures
      var b, e := Find(existing, BEGIN), Find(existing, END);
      Rewrite(Rewrite(existing, body, BEGIN, END), body, BEGIN, END) == Rewrite(existing, body, BEGIN, END)
      <==> (b.None? && e.None?) || (b.Some? && e.Some? && b.value < e.value)
  {
    AichanMarkers();
    RewriteIsIdempotentIff(existing, body, BEGIN, END);
  }

  // ---------- what is kept ----------

  lemma {:induction false} TrimmedNewlines(s: string) returns (newlines: string)
    ensures s == newlines + TrimNewlines(s)
    ensures forall i :: 0 <= i < |newlines| ==> newlines[i] == '\n'
  {
    if s != [] && s[0] == '\n' {
      var rest := TrimmedNewlines(s[1..]);
      newlines := "\n" + rest;
      assert s == "\n" + s[1..];
      Regroup("\n", rest, TrimNewlines(s));
    } else {
      newlines := "";
      assert "" + TrimNewlines(s) == TrimNewlines(s);
    }
  }

  /** The text in front of what is replaced is kept, and the text behind it but for newlines right after it. */
  lemma SpliceKeepsText(s: string, i: nat, j: nat, block: string) returns (newlines: string, back: string)
    requires i <= j <= |s|
    ensures s == s[..i] + s[i..j] + newlines + back
    ensures forall k :: 0 <= k < |newlines| ==> newlines[k] == '\n'
    ensures Splice(s, i, j, block) == s[..i] + block + back
  {
    newlines := TrimmedNewlines(s[j..]);
    back := TrimNewlines(s[j..]);
    assert s[..i] + s[i..j] == s[..j];
    assert s == s[..j] + s[j..];
    Regroup(s[..j], newlines, back);
  }

  lemma FoundOccurs(s: string, p: string)
    requires p != "" && Find(s, p).Some?
    ensures OccursAt(s, p, Find(s, p).value)
  {
    FindIsFirst(s, p);
  }

  /** With both markers in order, what is replaced is the text from the begin marker to the end marker. */
  lemma ReplacesMarkedPart(existing: string, body: string, begin: string, end: string)
    requires Markers(begin, end)
    requires Find(existing, begin).Some? && Find(existing, end).Some?
    requires Find(existing, begin).value < Find(existing, end).value
    ensures
      var b, e := Find(existing, begin).value, Find(existing, end).value;
      && b + |begin| <= e && OccursAt(existing, begin, b) && OccursAt(existing, end, e)
      && Rewrite(existing, body, begin, end) == Splice(existing, b, e + |end|, Block(body, begin, end))
  {
    FoundOccurs(existing, begin);
    FoundOccurs(existing, end);
    MarkersApart(existing, begin, end, Find(existing, begin).value, Find(existing, end).value);
    RewriteInOrder(existing, body, begin, end);
  }

  lemma RewriteAtBoth(existing: string, b: nat, e: nat, endLength: nat, block: string)
    requires b <= |existing| && e + endLength <= |existing|
    ensures RewriteAt(existing, Some(b), Some(e), endLength, block) == Splice(existing, b, e + endLength, block)
  {
  }

  lemma RewriteInOrder(existing: string, body: string, begin: string, end: string)
    requires Find(existing, begin).Some? && Find(existing, end).Some?
    requires Find(existing, begin).value <= |existing| && Find(existing, end).value + |end| <= |existing|
    ensures Rewrite(existing, body, begin, end)
            == Splice(existing, Find(existing, begin).value, Find(existing, end).value + |end|,
                      Block(body, begin, end))
  {
    var b, e, block := Find(existing, begin).value, Find(existing, end).value, Block(body, begin, end);
    assert Find(existing, begin) == Some(b) && Find(existing, end) == Some(e);
    RewriteAtBoth(existing, b, e, |end|, block);
  }

  /** Text of nothing but newlines. */
  predicate OnlyNewlines(s: string) {
    forall i :: 0 <= i < |s| ==> s[i] == '\n'
  }

  lemma {:induction false} TrimStops(s: string)
    ensures TrimNewlines(s) != "" ==> TrimNewlines(s)[0] != '\n'
  {
    if s != "" {
      TrimStops(s[1..]);
    }
  }

  /**
    What is written, character by character. With both markers in the file, the text up to the first
    begin marker, the block, and the text behind the first end marker without the newlines at its front.
    Without one of them, the file and the block with one empty line between, or the block alone.
  */
  lemma WrittenText(existing: string, body: string, begin: string, end: string) returns (back: string)
    requires begin != "" && end != ""
    ensures
      var written := Rewrite(existing, body, begin, end);
      var block := begin + "\n" + body + end + "\n";
      if exists i, j: nat :: FirstAt(existing, begin, i) && FirstAt(existing, end, j) then
        exists i, j: nat :: && FirstAt(existing, begin, i) && FirstAt(existing, end, j)
                            && IsSpliced(written, existing, i, j + |end|, block, back)
      else if existing == "" then written == block
      else if existing[|existing| - 1] == '\n' then written == existing + "\n" + block
      else written == existing + "\n\n" + block
  {
    FindIsFirst(existing, begin);
    FindIsFirst(existing, end);
    var b, e := Find(existing, begin), Find(existing, end);
    var block := Block(body, begin, end);
    if b.Some? && e.Some? {
      back := TrimNewlines(existing[e.value + |end|..]);
      RewriteAtBoth(existing, b.value, e.value, |end|, block);
      SpliceIsSpliced(existing, b.value, e.value + |end|, block);
      assert FirstAt(existing, begin, b.value) && FirstAt(existing, end, e.value);
    } else {
      back := "";
      if existing != "" && existing[|existing| - 1] != '\n' {
        assert existing + "\n" + "\n" == existing + "\n\n";
      }
    }
  }

  /** The text up to i, the block, and the text from j on without the newlines at its front. */
  ghost predicate IsSpliced(written: string, s: string, i: nat, j: nat, block: string, back: string) {
    && i <= |s| && j <= |s|
    && written == s[..i] + block + back
    && (back != "" ==> back[0] != '\n')
    && exists newlines :: OnlyNewlines(newlines) && s[j..] == newlines + back
  }

  lemma SpliceIsSpliced(s: string, i: nat, j: nat, block: string)
    requires i <= |s| && j <= |s|
    ensures IsSpliced(Splice(s, i, j, block), s, i, j, block, TrimNewlines(s[j..]))
  {
    var newlines := TrimmedNewlines(s[j..]);
    TrimStops(s[j..]);
    assert OnlyNewlines(newlines) && s[j..] == newlines + TrimNewlines(s[j..]);
  }

  /** The same, in the program's own markers. */
  lemma AichanMarkersAre()
    ensures BEGIN == "<!-- BEGIN AICHAN -->" && END == "<!-- END AICHAN -->"
  {
  }
}
