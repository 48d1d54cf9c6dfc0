/**
  The discover request between client and server: the path the client writes, and what the server
  makes of it: the parsed query, the normalized tags, the clamped limit and the trimmed seed.
*/
module DiscoverQuery {
  import opened Wrappers
  import opened Text
  import opened Decimal
  import opened Utf8
  import opened PercentCodec

  const DISCOVER_DEFAULT_LIMIT: nat := 3
  const DISCOVER_MAX_LIMIT: nat := 25
  const DISCOVER_MAX_TAGS: nat := 5
  const USIZE_MAX: nat := 0xFFFF_FFFF_FFFF_FFFF

  // ---------- trimming and case ----------

  /** The White_Space property of Unicode. */
  predicate IsWhitespace(c: char) {
    var n := c as int;
    || 9 <= n <= 13 || n == 0x20 || n == 0x85 || n == 0xA0 || n == 0x1680 || 0x2000 <= n <= 0x200A
    || n == 0x2028 || n == 0x2029 || n == 0x202F || n == 0x205F || n == 0x3000
  }

  function TrimStart(s: string): string {
    if s != [] && IsWhitespace(s[0]) then TrimStart(s[1..]) else s
  }

  function TrimEnd(s: string): string {
    if s != [] && IsWhitespace(s[|s| - 1]) then TrimEnd(s[..|s| - 1]) else s
  }

  function Trim(s: string): string {
    TrimEnd(TrimStart(s))
  }

  function LowerChar(c: char): char {
    if 'A' <= c <= 'Z' then (c as int + 32) as char else c
  }

  function ToAsciiLowercase(s: string): (r: string)
    ensures |r| == |s| && forall i :: 0 <= i < |s| ==> r[i] == LowerChar(s[i])
  {
    seq(|s|, i requires 0 <= i < |s| => LowerChar(s[i]))
  }

  // ---------- the client ----------

  function Clamp(limit: nat): nat {
    if limit < 1 then 1 else if limit > DISCOVER_MAX_LIMIT then DISCOVER_MAX_LIMIT else limit
  }

  /** The trimmed tags that are not empty. */
  function TrimmedTags(tags: seq<string>): seq<string> {
    if tags == [] then []
    else (if Trim(tags[0]) == "" then [] else [Trim(tags[0])]) + TrimmedTags(tags[1..])
  }

  function Escaped(texts: seq<string>): (r: seq<string>)
    ensures |r| == |texts| && forall i :: 0 <= i < |texts| ==> r[i] == QueryEscape(texts[i])
  {
    seq(|texts|, i requires 0 <= i < |texts| => QueryEscape(texts[i]))
  }

  function TrimmedSeed(seed: Option<string>): Option<string> {
    if seed.None? || Trim(seed.value) == "" then None else Some(Trim(seed.value))
  }

  function TagsPart(tags: seq<string>): string {
    var trimmed := TrimmedTags(tags);
    if trimmed == [] then "" else "&tags=" + Join(Escaped(trimmed), ',')
  }

  function SeedPart(seed: Option<string>): string {
    if TrimmedSeed(seed).None? then "" else "&seed=" + QueryEscape(TrimmedSeed(seed).value)
  }

  function DiscoverPath(tags: seq<string>, limit: nat, seed: Option<string>): string {
    "/v1/discover?limit=" + PrintNat(Clamp(limit)) + TagsPart(tags) + SeedPart(seed)
  }

  // ---------- the server ----------

  /** The text before and after the first occurrence of a character; None when it does not occur. */
  function SplitOnce(s: string, c: char): Option<(string, string)> {
    if s == [] then None
    else if s[0] == c then Some(("", s[1..]))
    else
      match SplitOnce(s[1..], c)
      case None => None
      case Some((front, back)) => Some(([s[0]] + front, back))
  }

  function QueryOf(pathAndQuery: string): string {
    match SplitOnce(pathAndQuery, '?')
    case None => ""
    case Some((_, query)) => query
  }

  function ParsePart(part: string): Option<(string, string)> {
    var (name, text) := match SplitOnce(part, '=') case None => (part, "") case Some(pair) => pair;
    var key, value := Decoded(name), Decoded(text);
    if key.Some? && value.Some? then Some((key.value, value.value)) else None
  }

  /** The parameters; the last of several with one name counts, and parts that cannot be decoded are dropped. */
  function Collect(parts: seq<string>): map<string, string> {
    if parts == [] then map[]
    else
      var n := |parts| - 1;
      var before := Collect(parts[..n]);
      if parts[n] == "" then before
      else
        match ParsePart(parts[n])
        case None => before
        case Some((key, value)) => before[key := value]
  }

  function ParseQuery(query: string): map<string, string> {
    Collect(Split(query, '&'))
  }

  /** Trimmed, lower-cased tags, each once, without empty ones, until there are five. */
  function NormalizeOnto(normalized: seq<string>, tags: seq<string>): seq<string>
    decreases |tags|
  {
    if tags == [] || |normalized| >= DISCOVER_MAX_TAGS then normalized
    else
      var tag := ToAsciiLowercase(Trim(tags[0]));
      NormalizeOnto(if tag == "" || tag in normalized then normalized else normalized + [tag], tags[1..])
  }

  function Normalized(tags: seq<string>): seq<string> {
    NormalizeOnto([], tags)
  }

  method NormalizeDiscoverTags(tags: seq<string>) returns (normalized: seq<string>)
    ensures normalized == Normalized(tags)
  {
    normalized := [];
    for i := 0 to |tags|
      invariant |normalized| < DISCOVER_MAX_TAGS
      invariant Normalized(tags) == NormalizeOnto(normalized, tags[i..])
    {
      var tag := ToAsciiLowercase(Trim(tags[i]));
      if tag == "" || tag in normalized {
        continue;
      }
      normalized := normalized + [tag];
      if |normalized| >= DISCOVER_MAX_TAGS {
        break;
      }
    }
  }

  /** What the server goes on with; a missing seed is replaced by one of the time of day. */
  datatype DiscoverRequest = DiscoverRequest(tags: seq<string>, limit: nat, seed: Option<string>)

  function ServerRequest(pathAndQuery: string): DiscoverRequest {
    var params := ParseQuery(QueryOf(pathAndQuery));
    var lists := if "tags" in params then Split(params["tags"], ',') else [];
    var single := if "tag" in params then [params["tag"]] else [];
    var limit := if "limit" in params then ParseNat(params["limit"], USIZE_MAX) else None;
    DiscoverRequest(
      Normalized(lists + single),
      Clamp(if limit.Some? then limit.value else DISCOVER_DEFAULT_LIMIT),
      TrimmedSeed(Lookup(params, "seed")))
  }

  // ---------- the server reads what the client wrote ----------

  lemma {:induction false} SplitOnceAt(a: string, b: string, c: char)
    requires c !in a
    ensures SplitOnce(a + [c] + b, c) == Some((a, b))
  {
    var s := a + [c] + b;
    if a == [] {
      assert s[1..] == b;
    } else {
      assert s[1..] == a[1..] + [c] + b;
      SplitOnceAt(a[1..], b, c);
      assert [a[0]] + a[1..] == a;
    }
  }

  lemma {:induction false} PlainEncoding(s: string)
    requires '%' !in s && '+' !in s
    ensures forall i :: 0 <= i < |Encode(s)| ==> Encode(s)[i] as int != '%' as int && Encode(s)[i] as int != '+' as int
  {
    if s != [] {
      PlainEncoding(s[1..]);
      assert s[0] in s;
    }
  }

  /** Text without percent and plus signs stands for itself. */
  lemma PlainText(s: string)
    requires '%' !in s && '+' !in s
    ensures Decoded(s) == Some(s)
  {
    PlainEncoding(s);
    PlainBytes(Encode(s), []);
    PrependNothing(Encode(s), None);
    assert Encode(s) + [] == Encode(s);
    DecodeEncodePrefix(s);
  }

  lemma ParsePair(key: string, text: string, value: string)
    requires '=' !in key && '%' !in key && '+' !in key
    requires Decoded(text) == Some(value)
    ensures ParsePart(key + "=" + text) == Some((key, value))
  {
    SplitOnceAt(key, text, '=');
    PlainText(key);
  }

  lemma EncodeComma(rest: seq<byte>)
    ensures DecodeBytes(Encode(",") + rest) == Prepend(Encode(","), DecodeBytes(rest))
  {
    EncodeOne(',');
    assert (Encode(",") + rest)[1..] == rest;
  }

  lemma {:induction false} DecodeJoined(texts: seq<string>)
    ensures DecodeBytes(Encode(Join(Escaped(texts), ','))) == Some(Encode(Join(texts, ',')))
  {
    if texts == [] {
    } else if |texts| == 1 {
      var escaped := Encode(QueryEscape(texts[0]));
      DecodeEscaped(Encode(texts[0]), true, []);
      PrependNothing(Encode(texts[0]), None);
      assert escaped + [] == escaped;
    } else {
      var rest := texts[1..];
      var first, others := QueryEscape(texts[0]), Join(Escaped(rest), ',');
      assert Escaped(texts)[1..] == Escaped(rest);
      DecodeJoined(rest);
      JoinedBytes(first, others);
      DecodeEscaped(Encode(texts[0]), true, Encode(",") + Encode(others));
      EncodeComma(Encode(others));
      JoinedBytes(texts[0], Join(rest, ','));
    }
  }

  lemma JoinedBytes(a: string, b: string)
    ensures Encode(a + [','] + b) == Encode(a) + (Encode(",") + Encode(b))
  {
    assert a + [','] + b == a + ("," + b);
    EncodeConcat(a, "," + b);
    EncodeConcat(",", b);
  }

  /** Escaped texts joined by commas are read as the texts joined by commas. */
  lemma JoinRoundTrip(texts: seq<string>)
    ensures Decoded(Join(Escaped(texts), ',')) == Some(Join(texts, ','))
  {
    DecodeJoined(texts);
    DecodeEncodePrefix(Join(texts, ','));
  }

  lemma {:induction false} JoinLacks(parts: seq<string>, sep: char, c: char)
    requires c != sep && forall i :: 0 <= i < |parts| ==> c !in parts[i]
    ensures c !in Join(parts, sep)
  {
    if |parts| > 1 {
      JoinLacks(parts[1..], sep, c);
    }
  }

  function TagsParts(tags: seq<string>): seq<string> {
    if TrimmedTags(tags) == [] then [] else ["tags=" + Join(Escaped(TrimmedTags(tags)), ',')]
  }

  function SeedParts(seed: Option<string>): seq<string> {
    if TrimmedSeed(seed).None? then [] else ["seed=" + QueryEscape(TrimmedSeed(seed).value)]
  }

  /** The parts of the query the client writes. */
  function Parts(tags: seq<string>, limit: nat, seed: Option<string>): seq<string> {
    ["limit=" + PrintNat(Clamp(limit))] + TagsParts(tags) + SeedParts(seed)
  }

  lemma JoinAppend(parts: seq<string>, part: string, sep: char)
    requires parts != []
    ensures Join(parts + [part], sep) == Join(parts, sep) + [sep] + part
  {
    var all := parts + [part];
    if |parts| == 1 {
      assert all[1..] == [part];
    } else {
      assert all[1..] == parts[1..] + [part];
      JoinAppend(parts[1..], part, sep);
      assert parts[0] + [sep] + (Join(parts[1..], sep) + [sep] + part)
             == parts[0] + [sep] + Join(parts[1..], sep) + [sep] + part;
    }
  }

  /** A further parameter of a query, if there is one. */
  function Further(parts: seq<string>): string {
    if parts == [] then "" else "&" + parts[0]
  }

  lemma JoinFurther(parts: seq<string>, more: seq<string>)
    requires parts != [] && |more| <= 1
    ensures Join(parts + more, '&') == Join(parts, '&') + Further(more)
  {
    if more == [] {
      assert parts + more == parts;
    } else {
      assert more == [more[0]];
      JoinAppend(parts, more[0], '&');
      assert Join(parts, '&') + ['&'] + more[0] == Join(parts, '&') + ("&" + more[0]);
    }
  }

  lemma FurtherParts(tags: seq<string>, seed: Option<string>)
    ensures TagsPart(tags) == Further(TagsParts(tags)) && SeedPart(seed) == Further(SeedParts(seed))
  {
    if TagsParts(tags) != [] {
      assert "&tags=" + Join(Escaped(TrimmedTags(tags)), ',')
             == "&" + ("tags=" + Join(Escaped(TrimmedTags(tags)), ','));
    }
    if SeedParts(seed) != [] {
      assert "&seed=" + QueryEscape(TrimmedSeed(seed).value) == "&" + ("seed=" + QueryEscape(TrimmedSeed(seed).value));
    }
  }

  lemma QueryAfterPath(number: string, tags: string, seed: string)
    ensures QueryOf("/v1/discover?limit=" + number + tags + seed) == "limit=" + number + tags + seed
  {
    var query := "limit=" + number + tags + seed;
    assert "/v1/discover?limit=" + number + tags + seed == "/v1/discover" + ['?'] + query;
    SplitOnceAt("/v1/discover", query, '?');
  }

  lemma QueryIsJoined(tags: seq<string>, limit: nat, seed: Option<string>)
    ensures QueryOf(DiscoverPath(tags, limit, seed)) == Join(Parts(tags, limit, seed), '&')
  {
    var first := ["limit=" + PrintNat(Clamp(limit))];
    FurtherParts(tags, seed);
    QueryAfterPath(PrintNat(Clamp(limit)), TagsPart(tags), SeedPart(seed));
    JoinFurther(first, TagsParts(tags));
    JoinFurther(first + TagsParts(tags), SeedParts(seed));
  }

  lemma PartsHaveNoSeparator(tags: seq<string>, limit: nat, seed: Option<string>)
    ensures forall i :: 0 <= i < |Parts(tags, limit, seed)| ==> '&' !in Parts(tags, limit, seed)[i]
  {
    var trimmed := TrimmedTags(tags);
    forall i | 0 <= i < |trimmed|
      ensures '&' !in Escaped(trimmed)[i]
    {
      EscapedIsPlain(Encode(trimmed[i]), true);
    }
    JoinLacks(Escaped(trimmed), ',', '&');
    if TrimmedSeed(seed).Some? {
      EscapedIsPlain(Encode(TrimmedSeed(seed).value), true);
    }
  }

  lemma CollectAppend(parts: seq<string>, part: string, key: string, value: string)
    requires part != "" && ParsePart(part) == Some((key, value))
    ensures Collect(parts + [part]) == Collect(parts)[key := value]
  {
    var all := parts + [part];
    assert all[..|all| - 1] == parts;
  }

  function AddTags(params: map<string, string>, tags: seq<string>): map<string, string> {
    if TrimmedTags(tags) == [] then params else params["tags" := Join(TrimmedTags(tags), ',')]
  }

  function AddSeed(params: map<string, string>, seed: Option<string>): map<string, string> {
    if TrimmedSeed(seed).None? then params else params["seed" := TrimmedSeed(seed).value]
  }

  /** A parameter more; `head` is its name and the equals sign. */
  lemma CollectPair(parts: seq<string>, head: string, key: string, text: string, value: string)
    requires head == key + "=" && '=' !in key && '%' !in key && '+' !in key
    requires Decoded(text) == Some(value)
    ensures Collect(parts + [head + text]) == Collect(parts)[key := value]
  {
    ParsePair(key, text, value);
    CollectAppend(parts, head + text, key, value);
  }

  lemma CollectNumber(number: nat)
    ensures Collect(["limit=" + PrintNat(number)]) == map["limit" := PrintNat(number)]
  {
    var text := PrintNat(number);
    PlainText(text);
    CollectPair([], "limit=", "limit", text, text);
    assert [] + ["limit=" + text] == ["limit=" + text];
  }

  lemma CollectTags(parts: seq<string>, tags: seq<string>)
    ensures Collect(parts + TagsParts(tags)) == AddTags(Collect(parts), tags)
  {
    if TagsParts(tags) == [] {
      assert parts + TagsParts(tags) == parts;
    } else {
      JoinRoundTrip(TrimmedTags(tags));
      CollectPair(parts, "tags=", "tags", Join(Escaped(TrimmedTags(tags)), ','), Join(TrimmedTags(tags), ','));
    }
  }

  lemma CollectSeed(parts: seq<string>, seed: Option<string>)
    ensures Collect(parts + SeedParts(seed)) == AddSeed(Collect(parts), seed)
  {
    if SeedParts(seed) == [] {
      assert parts + SeedParts(seed) == parts;
    } else {
      var value := TrimmedSeed(seed).value;
      QueryRoundTrip(value);
      CollectPair(parts, "seed=", "seed", QueryEscape(value), value);
    }
  }

  /** The parameters the server parses from what the client wrote. */
  lemma ParametersRead(tags: seq<string>, limit: nat, seed: Option<string>)
    ensures ParseQuery(QueryOf(DiscoverPath(tags, limit, seed)))
            == AddSeed(AddTags(map["limit" := PrintNat(Clamp(limit))], tags), seed)
  {
    var first := ["limit=" + PrintNat(Clamp(limit))];
    QueryIsJoined(tags, limit, seed);
    PartsHaveNoSeparator(tags, limit, seed);
    SplitOfJoin(Parts(tags, limit, seed), '&');
    SplitAllFree(Parts(tags, limit, seed), '&');
    CollectNumber(Clamp(limit));
    CollectTags(first, tags);
    CollectSeed(first + TagsParts(tags), seed);
  }

  // ---------- trimming ----------

  predicate Trimmed(s: string) {
    s == "" || (!IsWhitespace(s[0]) && !IsWhitespace(s[|s| - 1]))
  }

  lemma {:induction false} TrimStartTrims(s: string)
    ensures TrimStart(s) == "" || !IsWhitespace(TrimStart(s)[0])
  {
    if s != "" {
      TrimStartTrims(s[1..]);
    }
  }

  lemma {:induction false} TrimEndTrims(s: string)
    ensures TrimEnd(s) == "" || !IsWhitespace(TrimEnd(s)[|TrimEnd(s)| - 1])
    ensures TrimEnd(s) <= s
  {
    if s != "" {
      TrimEndTrims(s[..|s| - 1]);
    }
  }

  /** Trimming leaves no space at the ends, and trimmed text as it is. */
  lemma TrimTwice(s: string)
    ensures Trimmed(Trim(s)) && Trim(Trim(s)) == Trim(s)
  {
    TrimStartTrims(s);
    TrimEndTrims(TrimStart(s));
  }

  // ---------- what the server makes of it ----------

  /** The tags of the client as the server sees them: trimmed, and split at commas. */
  function Pieces(tags: seq<string>): seq<string> {
    SplitAll(TrimmedTags(tags), ',')
  }

  /**
    For all tags, limits and seeds, the server goes on with the pieces of the tags, normalized, the
    limit clamped to 1..25, and the trimmed seed, if there is one.
  */
  lemma ServerReadsClient(tags: seq<string>, limit: nat, seed: Option<string>)
    ensures ServerRequest(DiscoverPath(tags, limit, seed))
            == DiscoverRequest(Normalized(Pieces(tags)), Clamp(limit), TrimmedSeed(seed))
  {
    var params := ParseQuery(QueryOf(DiscoverPath(tags, limit, seed)));
    ParametersRead(tags, limit, seed);
    ParsePrint(Clamp(limit), USIZE_MAX);
    assert params["limit"] == PrintNat(Clamp(limit));
    if TrimmedTags(tags) != [] {
      SplitOfJoin(TrimmedTags(tags), ',');
      assert Split(params["tags"], ',') + [] == Pieces(tags);
    } else {
      assert "tags" !in params && Pieces(tags) == [];
    }
    if seed.Some? {
      TrimTwice(seed.value);
    }
    assert Lookup(params, "seed") == TrimmedSeed(seed);
  }

  // ---------- commas ----------

  predicate CommaFree(tags: seq<string>) {
    forall i :: 0 <= i < |tags| ==> ',' !in tags[i]
  }

  lemma LowerKeepsCommas(s: string)
    ensures ',' in ToAsciiLowercase(s) <==> ',' in s
  {
    var l := ToAsciiLowercase(s);
    assert forall i :: 0 <= i < |s| ==> (l[i] == ',' <==> s[i] == ',');
    if ',' in s {
      var i :| 0 <= i < |s| && s[i] == ',';
      assert l[i] == ',';
    }
  }

  lemma TrimKeepsOut(s: string, c: char)
    requires c !in s
    ensures c !in Trim(s)
  {
    TrimStartSuffix(s);
    TrimEndTrims(TrimStart(s));
  }

  lemma {:induction false} TrimStartSuffix(s: string)
    ensures forall c :: c in TrimStart(s) ==> c in s
  {
    if s != "" {
      TrimStartSuffix(s[1..]);
    }
  }

  /** Normalizing tags without commas gives tags without commas. */
  lemma {:induction false} NormalizeCommaFree(normalized: seq<string>, tags: seq<string>)
    requires CommaFree(normalized) && CommaFree(tags)
    ensures CommaFree(NormalizeOnto(normalized, tags))
    decreases |tags|
  {
    if tags != [] && |normalized| < DISCOVER_MAX_TAGS {
      var tag := ToAsciiLowercase(Trim(tags[0]));
      TrimKeepsOut(tags[0], ',');
      LowerKeepsCommas(Trim(tags[0]));
      NormalizeCommaFree(if tag == "" || tag in normalized then normalized else normalized + [tag], tags[1..]);
    }
  }

  lemma {:induction false} PiecesCommaFree(parts: seq<string>)
    ensures CommaFree(SplitAll(parts, ','))
  {
    if parts != [] {
      PiecesCommaFree(parts[1..]);
    }
  }

  /** What has been normalized already stays at the front. */
  lemma {:induction false} NormalizeExtends(normalized: seq<string>, tags: seq<string>)
    ensures normalized <= NormalizeOnto(normalized, tags)
    decreases |tags|
  {
    if tags != [] && |normalized| < DISCOVER_MAX_TAGS {
      var tag := ToAsciiLowercase(Trim(tags[0]));
      NormalizeExtends(if tag == "" || tag in normalized then normalized else normalized + [tag], tags[1..]);
    }
  }

  /** The first tag, trimmed and lower-cased, is dropped or kept; when it is kept it can be found. */
  lemma NormalizeFirst(normalized: seq<string>, tags: seq<string>)
    requires tags != [] && |normalized| < DISCOVER_MAX_TAGS
    ensures
      var tag := ToAsciiLowercase(Trim(tags[0]));
      tag == "" || tag in NormalizeOnto(normalized, tags)
  {
    var tag := ToAsciiLowercase(Trim(tags[0]));
    NormalizeExtends(if tag == "" || tag in normalized then normalized else normalized + [tag], tags[1..]);
    if tag != "" && tag !in normalized {
      assert (normalized + [tag])[|normalized|] == tag;
    }
  }

  lemma {:induction false} SplittingIsHarmless(normalized: seq<string>, tags: seq<string>)
    requires CommaFree(NormalizeOnto(normalized, tags))
    ensures NormalizeOnto(normalized, Pieces(tags)) == NormalizeOnto(normalized, tags)
    decreases |tags|
  {
    if tags != [] && |normalized| < DISCOVER_MAX_TAGS {
      var trimmed := Trim(tags[0]);
      var tag := ToAsciiLowercase(trimmed);
      SplittingIsHarmless(if tag == "" || tag in normalized then normalized else normalized + [tag], tags[1..]);
      if trimmed == "" {
        assert TrimmedTags(tags) == [] + TrimmedTags(tags[1..]) == TrimmedTags(tags[1..]);
      } else {
        NormalizeFirst(normalized, tags);
        LowerKeepsCommas(trimmed);
        SplitFree(trimmed, ',');
        TrimTwice(tags[0]);
        assert TrimmedTags(tags)[1..] == TrimmedTags(tags[1..]);
        assert Pieces(tags) == [trimmed] + Pieces(tags[1..]);
        assert Pieces(tags)[1..] == Pieces(tags[1..]);
      }
    }
  }

  /** The server's tags are the client's tags, normalized, iff no tag that normalizing keeps holds a comma. */
  lemma TagsArriveIff(tags: seq<string>, limit: nat, seed: Option<string>)
    ensures ServerRequest(DiscoverPath(tags, limit, seed)).tags == Normalized(tags) <==> CommaFree(Normalized(tags))
  {
    ServerReadsClient(tags, limit, seed);
    PiecesCommaFree(TrimmedTags(tags));
    NormalizeCommaFree([], Pieces(tags));
    if CommaFree(Normalized(tags)) {
      SplittingIsHarmless([], tags);
    }
  }

  /** So it is for all tags without commas. */
  lemma CommaFreeTagsArrive(tags: seq<string>, limit: nat, seed: Option<string>)
    requires CommaFree(tags)
    ensures ServerRequest(DiscoverPath(tags, limit, seed))
            == DiscoverRequest(Normalized(tags), Clamp(limit), TrimmedSeed(seed))
  {
    ServerReadsClient(tags, limit, seed);
    NormalizeCommaFree([], tags);
    TagsArriveIff(tags, limit, seed);
  }

  /** What normalized tags are: at most five, each once, not empty, and in lower case. */
  ghost predicate IsNormal(normalized: seq<string>) {
    && |normalized| <= DISCOVER_MAX_TAGS
    && (forall i :: 0 <= i < |normalized| ==>
          normalized[i] != "" && ToAsciiLowercase(normalized[i]) == normalized[i])
    && (forall i, j :: 0 <= i < j < |normalized| ==> normalized[i] != normalized[j])
  }

  lemma LowerTwice(s: string)
    ensures ToAsciiLowercase(ToAsciiLowercase(s)) == ToAsciiLowercase(s)
  {
  }

  /**
    Normalizing gives at most five distinct, lower-case, non-empty tags, each from the list, and when
    fewer than five, every non-empty tag of the list.
  */
  lemma {:induction false} NormalizeProperties(normalized: seq<string>, tags: seq<string>)
    requires IsNormal(normalized)
    ensures IsNormal(NormalizeOnto(normalized, tags))
    ensures forall t :: t in NormalizeOnto(normalized, tags) ==>
              t in normalized || exists i :: 0 <= i < |tags| && t == ToAsciiLowercase(Trim(tags[i]))
    ensures |NormalizeOnto(normalized, tags)| < DISCOVER_MAX_TAGS ==>
              forall i :: 0 <= i < |tags| && Trim(tags[i]) != "" ==>
                ToAsciiLowercase(Trim(tags[i])) in NormalizeOnto(normalized, tags)
    decreases |tags|
  {
    if tags != [] && |normalized| < DISCOVER_MAX_TAGS {
      var tag := ToAsciiLowercase(Trim(tags[0]));
      var next := if tag == "" || tag in normalized then normalized else normalized + [tag];
      LowerTwice(Trim(tags[0]));
      NormalizeProperties(next, tags[1..]);
      NormalizeFirst(normalized, tags);
      assert tags == [tags[0]] + tags[1..];
    }
  }
}
